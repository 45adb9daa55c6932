/**
 The line-oriented parser that reads the packages and capabilities catalogs when no YAML library is
 installed.  It splits the text into lines and recognises a few shapes of line by their indentation.
 */
module CatalogParser {
  import opened Options
  import opened Strings

  // What str.strip removes and \s matches.
  predicate IsSpace(c: char) {
    || '\t' <= c <= '\r' || '\U{001C}' <= c <= ' ' || c == '\U{0085}' || c == '\U{00A0}' || c == '\U{1680}'
    || '\U{2000}' <= c <= '\U{200A}' || c == '\U{2028}' || c == '\U{2029}' || c == '\U{202F}'
    || c == '\U{205F}' || c == '\U{3000}'
  }

  predicate IsQuote(c: char) {
    c == '\'' || c == '"'
  }

  predicate IsNameChar(c: char) {
    'A' <= c <= 'Z' || 'a' <= c <= 'z' || '0' <= c <= '9' || c == '.' || c == '_' || c == '-'
  }

  predicate IsName(s: string) {
    |s| > 0 && forall i :: 0 <= i < |s| ==> IsNameChar(s[i])
  }

  datatype Artifacts = Artifacts(required: Option<seq<string>>)

  datatype Entry = Entry(capabilities: Option<seq<string>>, artifacts: Option<Artifacts>)

  const EMPTY_ENTRY := Entry(None, None)

  /******* Lines *******/

  // What str.splitlines splits at; all of it is white space.
  predicate IsLineBreak(c: char) {
    || '\n' <= c <= '\r' || '\U{001C}' <= c <= '\U{001E}' || c == '\U{0085}' || c == '\U{2028}' || c == '\U{2029}'
  }

  function LineLength(text: string): (n: nat)
    ensures n <= |text|
  {
    if |text| == 0 || IsLineBreak(text[0]) then 0 else 1 + LineLength(text[1..])
  }

  // A carriage return and a line feed count as one break.
  function BreakLength(text: string): (n: nat)
    requires |text| > 0
    ensures 1 <= n <= |text|
  {
    if |text| > 1 && text[0] == '\r' && text[1] == '\n' then 2 else 1
  }

  function SplitLines(text: string): (lines: seq<string>)
    decreases |text|
  {
    if |text| == 0 then []
    else
      var n := LineLength(text);
      [text[..n]] + if n == |text| then [] else SplitLines(text[n + BreakLength(text[n..])..])
  }

  /******* Flow lists *******/

  function ListItem(raw: string): (r: seq<string>) {
    var part := Strip(raw, IsSpace);
    if |part| > 0 then [Strip(part, IsQuote)] else []
  }

  function ListItems(parts: seq<string>): (r: seq<string>) {
    if |parts| == 0 then [] else ListItem(parts[0]) + ListItems(parts[1..])
  }

  predicate IsBracketed(s: string) {
    |s| >= 2 && s[0] == '[' && s[|s| - 1] == ']'
  }

  function ParseFlowList(raw: string): (r: seq<string>) {
    var s := Strip(raw, IsSpace);
    if !IsBracketed(s) then []
    else
      var inner := Strip(s[1..|s| - 1], IsSpace);
      if |inner| == 0 then [] else ListItems(Split(inner, ','))
  }

  /******* Shapes of line *******/

  const CAPABILITIES := "    capabilities:"
  const ARTIFACTS := "    artifacts:"
  const REQUIRED := "      required:"
  const ITEM := "        -"

  function EntryName(line: string): (r: Option<string>) {
    if |line| >= 4 && line[..2] == "  " && line[|line| - 1] == ':' && IsName(line[2..|line| - 1])
    then Some(line[2..|line| - 1]) else None
  }

  // The bracketed rest of a line that starts with a field name.
  function FlowField(line: string, head: string): (r: Option<string>) {
    if head <= line && IsBracketed(StripLeft(line[|head|..], IsSpace))
    then Some(StripLeft(line[|head|..], IsSpace)) else None
  }

  predicate NoSpaces(s: string) {
    forall i :: 0 <= i < |s| ==> !IsSpace(s[i])
  }

  function BlockItem(line: string): (r: Option<string>) {
    if ITEM < line && IsSpace(line[|ITEM|]) then
      var id := StripLeft(line[|ITEM|..], IsSpace);
      if |id| > 0 && NoSpaces(id) then Some(id) else None
    else None
  }

  /******* The loop *******/

  datatype Parser = Parser(root: map<string, Entry>, inSection: bool, current: string, inRequired: bool) {
    ghost predicate Valid() {
      && (current != "" ==> inSection && current in root)
      && (inRequired ==> current != "" && root[current].artifacts.Some? && root[current].artifacts.value.required.Some?)
    }

    function WithEntry(e: Entry): (r: Parser) {
      this.(root := root[current := e])
    }
  }

  predicate IsIgnored(raw: string) {
    |Strip(raw, IsSpace)| == 0 || "#" <= StripLeft(raw, IsSpace)
  }

  function ParseField(p: Parser, line: string): (r: Parser)
    requires p.Valid() && p.current != ""
    ensures r.Valid() && r.current == p.current
  {
    var e := p.root[p.current];
    if FlowField(line, CAPABILITIES).Some? then
      p.WithEntry(e.(capabilities := Some(ParseFlowList(FlowField(line, CAPABILITIES).value))))
    else if line == ARTIFACTS then
      p.WithEntry(e.(artifacts := if e.artifacts.Some? then e.artifacts else Some(Artifacts(None)))).(inRequired := false)
    else if FlowField(line, REQUIRED).Some? then
      p.WithEntry(e.(artifacts := Some(Artifacts(Some(ParseFlowList(FlowField(line, REQUIRED).value))))))
      .(inRequired := false)
    else if line == REQUIRED then
      p.WithEntry(e.(artifacts := Some(Artifacts(Some([]))))).(inRequired := true)
    else if p.inRequired then
      match BlockItem(line)
      case Some(id) => p.WithEntry(e.(artifacts := Some(Artifacts(Some(e.artifacts.value.required.value + [id])))))
      case None => p.(inRequired := false)
    else p
  }

  function ParseLine(rootKey: string, p: Parser, raw: string): (r: Parser)
    requires p.Valid()
    ensures r.Valid()
  {
    if IsIgnored(raw) then p
    else
      var line := StripRight(raw, IsSpace);
      if line == rootKey + ":" then p.(inSection := true, current := "", inRequired := false)
      else if !p.inSection then p
      else
        match EntryName(line)
        case Some(name) => Parser(p.root[name := EMPTY_ENTRY], true, name, false)
        case None => if p.current == "" then p else ParseField(p, line)
  }

  const START := Parser(map[], false, "", false)

  function ParseFrom(rootKey: string, p: Parser, lines: seq<string>): (r: Parser)
    requires p.Valid()
    ensures r.Valid()
    decreases |lines|
  {
    if |lines| == 0 then p else ParseFrom(rootKey, ParseLine(rootKey, p, lines[0]), lines[1..])
  }

  function Parse(rootKey: string, lines: seq<string>): (root: map<string, Entry>) {
    ParseFrom(rootKey, START, lines).root
  }

  method LoadCatalogFallback(text: string, rootKey: string) returns (root: map<string, Entry>)
    ensures root == Parse(rootKey, SplitLines(text))
  {
    var lines := SplitLines(text);
    root := map[];
    var inSection, current, inRequired := false, "", false;
    for i := 0 to |lines|
      invariant Parser(root, inSection, current, inRequired).Valid()
      invariant ParseFrom(rootKey, Parser(root, inSection, current, inRequired), lines[i..])
             == ParseFrom(rootKey, START, lines)
    {
      ghost var was := Parser(root, inSection, current, inRequired);
      assert lines[i..][1..] == lines[i + 1..];
      if !IsIgnored(lines[i]) {
        var line := StripRight(lines[i], IsSpace);
        if line == rootKey + ":" {
          inSection, current, inRequired := true, "", false;
        } else if inSection {
          var name := EntryName(line);
          if name.Some? {
            current := name.value;
            root := root[current := EMPTY_ENTRY];
            inRequired := false;
          } else if current != "" {
            root, inRequired := LoadField(root, current, inRequired, line);
          }
        }
      }
      assert Parser(root, inSection, current, inRequired) == ParseLine(rootKey, was, lines[i]);
    }
  }

  // The rest of the loop body: a line inside the entry `current`.
  method LoadField(root: map<string, Entry>, current: string, inRequired: bool, line: string)
      returns (root': map<string, Entry>, inRequired': bool)
    requires Parser(root, true, current, inRequired).Valid() && current != ""
    ensures Parser(root', true, current, inRequired') == ParseField(Parser(root, true, current, inRequired), line)
  {
    root', inRequired' := root, inRequired;
    var entry := root[current];
    var capabilities, required := FlowField(line, CAPABILITIES), FlowField(line, REQUIRED);
    if capabilities.Some? {
      root' := root[current := entry.(capabilities := Some(ParseFlowList(capabilities.value)))];
    } else if line == ARTIFACTS {
      if entry.artifacts.None? {
        root' := root[current := entry.(artifacts := Some(Artifacts(None)))];
      }
      inRequired' := false;
    } else if required.Some? {
      root' := root[current := entry.(artifacts := Some(Artifacts(Some(ParseFlowList(required.value)))))];
      inRequired' := false;
    } else if line == REQUIRED {
      root' := root[current := entry.(artifacts := Some(Artifacts(Some([]))))];
      inRequired' := true;
    } else if inRequired {
      var id := BlockItem(line);
      if id.Some? {
        var items := entry.artifacts.value.required.value + [id.value];
        root' := root[current := entry.(artifacts := Some(Artifacts(Some(items))))];
      } else {
        inRequired' := false;
      }
    }
  }

  lemma {:induction false} ParseAppend(rootKey: string, p: Parser, a: seq<string>, b: seq<string>)
    requires p.Valid()
    ensures ParseFrom(rootKey, p, a + b) == ParseFrom(rootKey, ParseFrom(rootKey, p, a), b)
    decreases |a|
  {
    if |a| == 0 {
      assert a + b == b;
    } else {
      assert (a + b)[1..] == a[1..] + b;
      ParseAppend(rootKey, ParseLine(rootKey, p, a[0]), a[1..], b);
    }
  }
}
