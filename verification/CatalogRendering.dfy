/**
 All the ways a catalog may be laid out in a file, and the proof that the parser reads every one of
 them as the catalog it stands for.
 */
module CatalogRendering {
  import opened Options
  import opened Strings
  import opened CatalogParser

  /******* Flow lists *******/

  // Between two commas: nothing but white space, or an identifier that may be padded and quoted.
  datatype FlowPart = Gap(pad: string) | Id(before: string, quote: string, id: string, after: string)

  ghost predicate OneLine(s: string) {
    forall i :: 0 <= i < |s| ==> !IsLineBreak(s[i])
  }

  ghost predicate IsPad(s: string) {
    AllDropped(s, IsSpace) && OneLine(s)
  }

  ghost predicate GoodId(id: string) {
    |id| > 0 && OneLine(id) && Without(id, ',') && Bare(id, IsSpace) && id[0] !in "'\"" && id[|id| - 1] !in "'\""
  }

  ghost predicate GoodPart(part: FlowPart) {
    match part
    case Gap(pad) => IsPad(pad)
    case Id(before, quote, id, after) =>
      IsPad(before) && IsPad(after) && GoodId(id) && (quote == "" || quote == "'" || quote == "\"")
  }

  ghost predicate GoodParts(parts: seq<FlowPart>) {
    forall i :: 0 <= i < |parts| ==> GoodPart(parts[i])
  }

  function RenderPart(part: FlowPart): (r: string) {
    match part
    case Gap(pad) => pad
    case Id(before, quote, id, after) => before + (quote + id + quote) + after
  }

  function RenderParts(parts: seq<FlowPart>): (r: seq<string>)
    ensures |r| == |parts|
    ensures forall i :: 0 <= i < |r| ==> r[i] == RenderPart(parts[i])
  {
    if |parts| == 0 then [] else [RenderPart(parts[0])] + RenderParts(parts[1..])
  }

  function RenderFlow(parts: seq<FlowPart>): (r: string) {
    "[" + Join(RenderParts(parts), ',') + "]"
  }

  function IdsOf(parts: seq<FlowPart>): (r: seq<string>) {
    if |parts| == 0 then []
    else (if parts[0].Id? then [parts[0].id] else []) + IdsOf(parts[1..])
  }

  lemma PadReads(pad: string)
    requires IsPad(pad)
    ensures Strip(pad, IsSpace) == [] && Without(pad, ',')
  {
    assert pad == pad + [] + [];
    StripPadded(pad, [], [], IsSpace);
  }

  lemma QuotedReads(quote: string, id: string)
    requires GoodId(id) && (quote == "" || quote == "'" || quote == "\"")
    ensures Bare(quote + id + quote, IsSpace) && Without(quote + id + quote, ',')
    ensures Strip(quote + id + quote, IsQuote) == id
  {
    StripPadded(quote, id, quote, IsQuote);
  }

  lemma WithoutConcat(a: string, b: string, c: string, sep: char)
    requires Without(a, sep) && Without(b, sep) && Without(c, sep)
    ensures Without(a + b + c, sep)
  {
  }

  lemma PartReads(part: FlowPart)
    requires GoodPart(part)
    ensures Without(RenderPart(part), ',')
    ensures part.Gap? ==> Strip(RenderPart(part), IsSpace) == []
    ensures part.Id? ==> Strip(RenderPart(part), IsSpace) == part.quote + part.id + part.quote
    ensures part.Id? ==> Strip(part.quote + part.id + part.quote, IsQuote) == part.id
  {
    match part
    case Gap(pad) => PadReads(pad);
    case Id(before, quote, id, after) =>
      PadReads(before);
      PadReads(after);
      QuotedReads(quote, id);
      StripPadded(before, quote + id + quote, after, IsSpace);
      WithoutConcat(before, quote + id + quote, after, ',');
  }

  lemma {:induction false} PartsRead(parts: seq<FlowPart>)
    requires GoodParts(parts)
    ensures ListItems(RenderParts(parts)) == IdsOf(parts)
  {
    if |parts| > 0 {
      PartReads(parts[0]);
      PartsRead(parts[1..]);
      assert RenderParts(parts)[1..] == RenderParts(parts[1..]);
    }
  }

  // The parser strips the list before splitting it; that only strips the first and the last part.
  lemma StripSpaceLeft(c: char, s: string)
    requires IsSpace(c)
    ensures Strip([c] + s, IsSpace) == Strip(s, IsSpace)
  {
    StripLeftPadded([c], s, IsSpace);
  }

  lemma {:induction false} ItemsAfterStripLeft(s: string)
    ensures ListItems(Split(StripLeft(s, IsSpace), ',')) == ListItems(Split(s, ','))
  {
    if |s| > 0 && IsSpace(s[0]) {
      ItemsAfterStripLeft(s[1..]);
      var rest := Split(s[1..], ',');
      var parts := [[s[0]] + rest[0]] + rest[1..];
      StripSpaceLeft(s[0], rest[0]);
      assert parts[1..] == rest[1..];
    }
  }

  lemma StripSpaceRight(s: string, c: char)
    requires IsSpace(c)
    ensures Strip(s + [c], IsSpace) == Strip(s, IsSpace)
  {
    if AllDropped(s, IsSpace) {
      StripLeftPadded(s, [c], IsSpace);
      StripLeftPadded([c], [], IsSpace);
      assert [c] + [] == [c];
      assert s + [] == s;
      StripLeftPadded(s, [], IsSpace);
    } else {
      StripLeftAppend(s, c);
      StripRightPadded(StripLeft(s, IsSpace), [c], IsSpace);
    }
  }

  lemma {:induction false} StripLeftAppend(s: string, c: char)
    requires !AllDropped(s, IsSpace)
    ensures StripLeft(s + [c], IsSpace) == StripLeft(s, IsSpace) + [c]
  {
    if IsSpace(s[0]) {
      assert (s + [c])[1..] == s[1..] + [c];
      assert !AllDropped(s[1..], IsSpace) by {
        var i :| 0 <= i < |s| && !IsSpace(s[i]);
        assert s[1..][i - 1] == s[i];
      }
      StripLeftAppend(s[1..], c);
    }
  }

  lemma {:induction false} ListItemsAppend(a: seq<string>, b: seq<string>)
    ensures ListItems(a + b) == ListItems(a) + ListItems(b)
  {
    if |a| == 0 {
      assert a + b == b;
    } else {
      assert (a + b)[1..] == a[1..] + b;
      ListItemsAppend(a[1..], b);
      ConcatAssociative(ListItem(a[0]), ListItems(a[1..]), ListItems(b));
    }
  }

  lemma SplitSpaceRight(s: string, c: char)
    requires IsSpace(c)
    ensures ListItems(Split(s + [c], ',')) == ListItems(Split(s, ','))
  {
    var init, last := SplitLast(s, ',');
    if |init| == 0 {
      SplitWithout(s + [c], ',');
    } else {
      assert s + [c] == Join(init, ',') + [','] + (last + [c]);
      SplitAfterJoin(init, last + [c], ',');
    }
    assert Split(s + [c], ',') == init + [last + [c]];
    ListItemsAppend(init, [last]);
    ListItemsAppend(init, [last + [c]]);
    StripSpaceRight(last, c);
    assert [last][1..] == [last + [c]][1..];
  }

  lemma {:induction false} ItemsAfterStripRight(s: string)
    ensures ListItems(Split(StripRight(s, IsSpace), ',')) == ListItems(Split(s, ','))
  {
    if |s| > 0 && IsSpace(s[|s| - 1]) {
      var t, c := s[..|s| - 1], s[|s| - 1];
      assert s == t + [c];
      ItemsAfterStripRight(t);
      SplitSpaceRight(t, c);
    }
  }

  lemma ItemsAfterStrip(s: string)
    ensures ListItems(Split(Strip(s, IsSpace), ',')) == ListItems(Split(s, ','))
  {
    ItemsAfterStripLeft(s);
    ItemsAfterStripRight(StripLeft(s, IsSpace));
  }

  lemma Brackets(body: string)
    ensures var raw := "[" + body + "]";
            IsBracketed(raw) && raw[1..|raw| - 1] == body && Strip(raw, IsSpace) == raw
  {
    var raw := "[" + body + "]";
    assert raw[0] == '[' && raw[|raw| - 1] == ']';
    StripBare(raw, IsSpace);
  }

  lemma FlowBody(body: string)
    ensures ParseFlowList("[" + body + "]") == ListItems(Split(body, ','))
  {
    Brackets(body);
    ItemsAfterStrip(body);
    EmptyList();
  }

  lemma EmptyList()
    ensures ListItems(Split([], ',')) == []
  {
    var parts: seq<string> := [[]];
    assert Split([], ',') == parts && parts[1..] == [];
  }

  // A flow list is read as its identifiers, however they are padded and quoted.
  lemma FlowReads(parts: seq<FlowPart>)
    requires GoodParts(parts)
    ensures ParseFlowList(RenderFlow(parts)) == IdsOf(parts)
  {
    var rendered := RenderParts(parts);
    FlowBody(Join(rendered, ','));
    PartsRead(parts);
    if |parts| == 0 {
      EmptyList();
    } else {
      forall i | 0 <= i < |rendered| ensures Without(rendered[i], ',') {
        PartReads(parts[i]);
      }
      SplitJoin(rendered, ',');
    }
  }

  /******* Layouts *******/

  datatype BlockLine = BlockGap(line: string) | BlockId(gap: string, id: string, tail: string)

  // One field of an entry, or a line that says nothing the parser looks for.
  datatype Field =
    | Noise(line: string)
    | Capabilities(gap: string, parts: seq<FlowPart>, tail: string)
    | ArtifactsHead(tail: string)
    | RequiredFlow(gap: string, parts: seq<FlowPart>, tail: string)
    | RequiredBlock(tail: string, items: seq<BlockLine>)

  datatype EntryLayout = EntryLayout(name: string, tail: string, fields: seq<Field>)

  // A catalog file: lines before the root key, the root key, and the entries.
  datatype Layout = Layout(preamble: seq<string>, tail: string, gap: seq<string>, entries: seq<EntryLayout>)

  // Letters, digits and three marks.
  ghost predicate GoodName(s: string) {
    |s| > 0 && forall i :: 0 <= i < |s| ==>
      || 'A' <= s[i] <= 'Z' || 'a' <= s[i] <= 'z' || '0' <= s[i] <= '9' || s[i] in "._-"
  }

  lemma NameIff(s: string)
    ensures GoodName(s) <==> IsName(s)
  {
    if GoodName(s) {
      forall i | 0 <= i < |s| ensures IsNameChar(s[i]) {}
    }
    if IsName(s) {
      assert forall i :: 0 <= i < |s| ==> IsNameChar(s[i]);
    }
  }

  ghost predicate GoodRoot(rootKey: string) {
    GoodName(rootKey)
  }

  // A line that none of the tests recognises; a list item is one of them only inside a block list.
  ghost predicate Unrecognised(rootKey: string, raw: string, inRequired: bool) {
    var line := StripRight(raw, IsSpace);
    && line != rootKey + ":" && EntryName(line).None?
    && FlowField(line, CAPABILITIES).None? && line != ARTIFACTS
    && FlowField(line, REQUIRED).None? && line != REQUIRED
    && (inRequired ==> BlockItem(line).None?)
  }

  ghost predicate GoodBlockLine(b: BlockLine) {
    match b
    case BlockGap(line) => IsIgnored(line) && OneLine(line)
    case BlockId(gap, id, tail) => |gap| > 0 && IsPad(gap) && |id| > 0 && NoSpaces(id) && IsPad(tail)
  }

  ghost predicate GoodField(rootKey: string, f: Field, inRequired: bool) {
    match f
    case Noise(line) => OneLine(line) && (IsIgnored(line) || Unrecognised(rootKey, line, inRequired))
    case Capabilities(gap, parts, tail) => IsPad(gap) && GoodParts(parts) && IsPad(tail)
    case ArtifactsHead(tail) => IsPad(tail)
    case RequiredFlow(gap, parts, tail) => IsPad(gap) && GoodParts(parts) && IsPad(tail)
    case RequiredBlock(tail, items) => IsPad(tail) && forall i :: 0 <= i < |items| ==> GoodBlockLine(items[i])
  }

  // Whether a block list is still open after the field.
  predicate OpenAfter(f: Field, inRequired: bool) {
    match f
    case Noise(line) => inRequired && IsIgnored(line)
    case Capabilities(_, _, _) => inRequired
    case RequiredBlock(_, _) => true
    case _ => false
  }

  ghost predicate GoodFields(rootKey: string, fields: seq<Field>, inRequired: bool) {
    |fields| > 0 ==>
      && GoodField(rootKey, fields[0], inRequired)
      && GoodFields(rootKey, fields[1..], OpenAfter(fields[0], inRequired))
  }

  ghost predicate NotRoot(rootKey: string, raw: string) {
    IsIgnored(raw) || StripRight(raw, IsSpace) != rootKey + ":"
  }

  ghost predicate NotEntry(raw: string) {
    IsIgnored(raw) || EntryName(StripRight(raw, IsSpace)).None?
  }

  ghost predicate GoodEntry(rootKey: string, e: EntryLayout) {
    GoodName(e.name) && IsPad(e.tail) && GoodFields(rootKey, e.fields, false)
  }

  ghost predicate GoodLayout(rootKey: string, d: Layout) {
    && GoodRoot(rootKey) && IsPad(d.tail)
    && (forall i :: 0 <= i < |d.preamble| ==> OneLine(d.preamble[i]) && NotRoot(rootKey, d.preamble[i]))
    && (forall i :: 0 <= i < |d.gap| ==> OneLine(d.gap[i]) && NotRoot(rootKey, d.gap[i]) && NotEntry(d.gap[i]))
    && (forall i :: 0 <= i < |d.entries| ==> GoodEntry(rootKey, d.entries[i]))
  }

  /******* Lines that say nothing *******/

  lemma LineBreakIff(c: char)
    ensures IsLineBreak(c) <==> c in "\n\U{000B}\U{000C}\r\U{001C}\U{001D}\U{001E}\U{0085}\U{2028}\U{2029}"
  {
  }

  lemma SpaceIff(c: char)
    ensures IsSpace(c) <==> c in "\t\n\U{000B}\U{000C}\r\U{001C}\U{001D}\U{001E}\U{001F} \U{0085}\U{00A0}\U{1680}\U{2000}\U{2001}\U{2002}\U{2003}\U{2004}\U{2005}\U{2006}\U{2007}\U{2008}\U{2009}\U{200A}\U{2028}\U{2029}\U{202F}\U{205F}\U{3000}"
  {
  }

  // The only line that starts an entry: two blanks, the name and a colon.
  lemma EntryNameIff(line: string, name: string)
    ensures EntryName(line) == Some(name) <==> GoodName(name) && line == "  " + name + ":"
  {
    NameIff(name);
    if EntryName(line) == Some(name) {
      assert line == line[..2] + line[2..|line| - 1] + [line[|line| - 1]];
    }
    if GoodName(name) && line == "  " + name + ":" {
      assert line[..2] == "  " && line[2..|line| - 1] == name && line[|line| - 1] == ':';
    }
  }

  // The only line that holds a flow list: the head, some white space and what is in brackets.
  lemma FlowFieldIff(line: string, head: string, list: string)
    ensures FlowField(line, head) == Some(list) <==>
              && |list| >= 2 && list[0] == '[' && list[|list| - 1] == ']'
              && exists gap :: AllDropped(gap, IsSpace) && line == head + (gap + list)
  {
    if FlowField(line, head) == Some(list) {
      var gap := StripLeftIs(line[|head|..], IsSpace);
      assert line == head + line[|head|..];
    }
    if gap :| AllDropped(gap, IsSpace) && line == head + (gap + list) && |list| >= 2 && list[0] == '[' && list[|list| - 1] == ']' {
      assert line[|head|..] == gap + list;
      StripLeftPadded(gap, list, IsSpace);
    }
  }

  // The only line that is a list item: eight blanks, a hyphen, white space and a word.
  lemma BlockItemIff(line: string, id: string)
    ensures BlockItem(line) == Some(id) <==>
              && |id| > 0 && (forall i :: 0 <= i < |id| ==> !IsSpace(id[i]))
              && exists gap :: |gap| > 0 && AllDropped(gap, IsSpace) && line == "        -" + (gap + id)
  {
    if BlockItem(line) == Some(id) {
      var gap := StripLeftIs(line[|ITEM|..], IsSpace);
      assert line == ITEM + line[|ITEM|..];
      assert |gap| > 0 by {
        assert line[|ITEM|..][0] == line[|ITEM|];
      }
    }
    if gap :| |gap| > 0 && AllDropped(gap, IsSpace) && line == "        -" + (gap + id)
              && |id| > 0 && forall i :: 0 <= i < |id| ==> !IsSpace(id[i]) {
      assert line[|ITEM|..] == gap + id && line[|ITEM|] == gap[0];
      StripLeftPadded(gap, id, IsSpace);
    }
  }

  lemma BlankIff(raw: string)
    ensures |Strip(raw, IsSpace)| == 0 <==> AllDropped(raw, IsSpace)
  {
    var before, after := StripIs(raw, IsSpace);
    if AllDropped(raw, IsSpace) {
      assert raw == raw + [] + [];
      StripPadded(raw, [], [], IsSpace);
    }
    if |Strip(raw, IsSpace)| == 0 {
      assert raw == before + after;
    }
  }

  lemma CommentRead(pad: string, text: string)
    requires AllDropped(pad, IsSpace)
    ensures StripLeft(pad + ("#" + text), IsSpace) == "#" + text
  {
    StripLeftPadded(pad, "#" + text, IsSpace);
    assert ("#" + text)[0] == '#' && !IsSpace('#');
  }

  lemma CommentIff(raw: string)
    ensures "#" <= StripLeft(raw, IsSpace) <==> exists pad, text :: AllDropped(pad, IsSpace) && raw == pad + ("#" + text)
  {
    var rest := StripLeft(raw, IsSpace);
    if "#" <= rest {
      var pad := StripLeftIs(raw, IsSpace);
      assert rest == "#" + rest[1..];
      assert raw == pad + ("#" + rest[1..]);
    }
    if pad, text :| AllDropped(pad, IsSpace) && raw == pad + ("#" + text) {
      CommentRead(pad, text);
    }
  }

  // What is ignored is blank, or a comment after some white space.
  lemma IgnoredIff(raw: string)
    ensures IsIgnored(raw) <==> AllDropped(raw, IsSpace) || exists pad, text :: AllDropped(pad, IsSpace) && raw == pad + ("#" + text)
  {
    BlankIff(raw);
    CommentIff(raw);
  }

  // A field of any other name is passed over.
  lemma OtherFieldUnrecognised(rootKey: string, name: string, rest: string)
    requires GoodName(name) && name != "capabilities" && name != "artifacts" && GoodRoot(rootKey)
    ensures Unrecognised(rootKey, "    " + name + ":" + rest, true)
  {
    var line := StripRight("    " + name + ":" + rest, IsSpace);
    OtherFieldKept(name, rest);
    OtherFieldHeads(line, name);
    NotAName(line);
    NameIff(rootKey);
    assert (rootKey + ":")[0] == rootKey[0] && IsNameChar(rootKey[0]);
  }

  lemma OtherFieldHeads(line: string, name: string)
    requires GoodName(name) && name != "capabilities" && name != "artifacts" && "    " + name + ":" <= line
    ensures |line| > 2 && line[0] == ' ' && line[2] == ' '
    ensures !(CAPABILITIES <= line) && !(ARTIFACTS <= line) && !(REQUIRED <= line) && !(ITEM <= line)
  {
    NameIff(name);
    var head := "    " + name + ":";
    assert head[0] == ' ' && head[2] == ' ' && head[4] == name[0] && IsNameChar(name[0]);
    assert line[0] == head[0] && line[2] == head[2] && line[4] == head[4];
    assert REQUIRED[4] == ' ' && ITEM[4] == ' ';
    assert "    " + "capabilities" + ":" == CAPABILITIES && "    " + "artifacts" + ":" == ARTIFACTS;
    assert Without(name, ':') && Without("capabilities", ':') && Without("artifacts", ':');
    if CAPABILITIES <= line {
      HeadUnique(line, name, "capabilities");
    }
    if ARTIFACTS <= line {
      HeadUnique(line, name, "artifacts");
    }
  }

  lemma OtherFieldKept(name: string, rest: string)
    requires GoodName(name)
    ensures var line := StripRight("    " + name + ":" + rest, IsSpace); "    " + name + ":" <= line
  {
    var head, raw := "    " + name + ":", "    " + name + ":" + rest;
    StripRightIsPrefix(raw, IsSpace);
    var line := StripRight(raw, IsSpace);
    assert raw[|head| - 1] == ':' && !IsSpace(':');
    assert |line| >= |head|;
    assert raw[..|head|] == head;
  }

  lemma HeadUnique(line: string, name: string, other: string)
    requires Without(name, ':') && Without(other, ':') && "    " + name + ":" <= line && "    " + other + ":" <= line
    ensures name == other
  {
    var a, b := "    " + name + ":", "    " + other + ":";
    assert line[|a| - 1] == ':' && line[|b| - 1] == ':';
    assert |name| == |other| by {
      assert forall i :: 0 <= i < |name| ==> line[4 + i] == name[i];
      assert forall i :: 0 <= i < |other| ==> line[4 + i] == other[i];
    }
    assert name == a[4..|a| - 1] && other == b[4..|b| - 1];
  }

  /******* Rendering *******/

  function RenderBlockLine(b: BlockLine): (r: string) {
    match b
    case BlockGap(line) => line
    case BlockId(gap, id, tail) => "        -" + gap + id + tail
  }

  function RenderBlock(items: seq<BlockLine>): (r: seq<string>) {
    if |items| == 0 then [] else [RenderBlockLine(items[0])] + RenderBlock(items[1..])
  }

  function RenderField(f: Field): (r: seq<string>) {
    match f
    case Noise(line) => [line]
    case Capabilities(gap, parts, tail) => ["    capabilities:" + gap + RenderFlow(parts) + tail]
    case ArtifactsHead(tail) => ["    artifacts:" + tail]
    case RequiredFlow(gap, parts, tail) => ["      required:" + gap + RenderFlow(parts) + tail]
    case RequiredBlock(tail, items) => ["      required:" + tail] + RenderBlock(items)
  }

  function RenderFields(fields: seq<Field>): (r: seq<string>) {
    if |fields| == 0 then [] else RenderField(fields[0]) + RenderFields(fields[1..])
  }

  function RenderEntry(e: EntryLayout): (r: seq<string>) {
    ["  " + e.name + ":" + e.tail] + RenderFields(e.fields)
  }

  function RenderEntries(entries: seq<EntryLayout>): (r: seq<string>) {
    if |entries| == 0 then [] else RenderEntry(entries[0]) + RenderEntries(entries[1..])
  }

  function Render(rootKey: string, d: Layout): (lines: seq<string>) {
    d.preamble + [rootKey + ":" + d.tail] + d.gap + RenderEntries(d.entries)
  }

  /******* The catalog a layout stands for *******/

  function OwnId(b: BlockLine): (r: seq<string>) {
    if b.BlockId? then [b.id] else []
  }

  function BlockIds(items: seq<BlockLine>): (r: seq<string>) {
    if |items| == 0 then []
    else OwnId(items[0]) + BlockIds(items[1..])
  }

  function FieldMeaning(f: Field, e: Entry): (r: Entry) {
    match f
    case Noise(_) => e
    case Capabilities(_, parts, _) => e.(capabilities := Some(IdsOf(parts)))
    case ArtifactsHead(_) => e.(artifacts := if e.artifacts.Some? then e.artifacts else Some(Artifacts(None)))
    case RequiredFlow(_, parts, _) => e.(artifacts := Some(Artifacts(Some(IdsOf(parts)))))
    case RequiredBlock(_, items) => e.(artifacts := Some(Artifacts(Some(BlockIds(items)))))
  }

  function FieldsMeaning(fields: seq<Field>, e: Entry): (r: Entry) {
    if |fields| == 0 then e else FieldsMeaning(fields[1..], FieldMeaning(fields[0], e))
  }

  function EntriesMeaning(entries: seq<EntryLayout>, root: map<string, Entry>): (r: map<string, Entry>) {
    if |entries| == 0 then root
    else EntriesMeaning(entries[1..], root[entries[0].name := FieldsMeaning(entries[0].fields, EMPTY_ENTRY)])
  }

  function Meaning(d: Layout): (r: map<string, Entry>) {
    EntriesMeaning(d.entries, map[])
  }

  /******* Line by line *******/

  // The part of a line that counts: it starts after the indentation and ends before the tail.
  ghost predicate IsCore(core: string, indent: nat) {
    && indent < |core| && IsPad(core[..indent])
    && !IsSpace(core[indent]) && core[indent] != '#' && !IsSpace(core[|core| - 1])
  }

  lemma CoreReads(core: string, indent: nat, tail: string)
    requires IsCore(core, indent) && IsPad(tail)
    ensures !IsIgnored(core + tail) && StripRight(core + tail, IsSpace) == core
  {
    StripRightPadded(core, tail, IsSpace);
    var rest := core[indent..] + tail;
    assert core + tail == core[..indent] + rest;
    StripLeftPadded(core[..indent], rest, IsSpace);
    assert StripLeft(core + tail, IsSpace) == rest && rest[0] == core[indent];
    StripRightPadded(core[indent..], tail, IsSpace);
  }

  lemma NotAName(line: string)
    requires |line| > 2 && line[2] == ' '
    ensures EntryName(line).None?
  {
    if |line| >= 4 {
      assert line[2..|line| - 1][0] == ' ';
    }
  }

  lemma FlowFieldReads(head: string, gap: string, parts: seq<FlowPart>)
    requires IsPad(gap)
    ensures FlowField(head + gap + RenderFlow(parts), head) == Some(RenderFlow(parts))
  {
    var line, flow := head + gap + RenderFlow(parts), RenderFlow(parts);
    assert line[|head|..] == gap + flow;
    StripLeftPadded(gap, flow, IsSpace);
  }

  // A line indented below an entry goes to the field tests as its core.
  lemma FieldLine(rootKey: string, p: Parser, core: string, indent: nat, tail: string)
    requires GoodRoot(rootKey) && p.Valid() && p.current != ""
    requires IsCore(core, indent) && indent > 2 && core[0] == ' ' && core[2] == ' ' && IsPad(tail)
    ensures ParseLine(rootKey, p, core + tail) == ParseField(p, core)
  {
    CoreReads(core, indent, tail);
    NotAName(core);
    NameIff(rootKey);
    assert (rootKey + ":")[0] == rootKey[0];
  }

  lemma FlowEnds(head: string, gap: string, parts: seq<FlowPart>)
    ensures var line := head + gap + RenderFlow(parts); line[|line| - 1] == ']'
  {
  }

  lemma CapabilitiesLine(rootKey: string, p: Parser, f: Field)
    requires GoodRoot(rootKey) && p.Valid() && p.current != ""
    requires f.Capabilities? && GoodField(rootKey, f, p.inRequired)
    ensures ParseLine(rootKey, p, RenderField(f)[0]) == p.WithEntry(FieldMeaning(f, p.root[p.current]))
  {
    var core := CAPABILITIES + f.gap + RenderFlow(f.parts);
    FlowEnds(CAPABILITIES, f.gap, f.parts);
    assert core[..4] == "    " && core[4] == 'c';
    FieldLine(rootKey, p, core, 4, f.tail);
    FlowFieldReads(CAPABILITIES, f.gap, f.parts);
    FlowReads(f.parts);
  }

  lemma ArtifactsLine(rootKey: string, p: Parser, f: Field)
    requires GoodRoot(rootKey) && p.Valid() && p.current != ""
    requires f.ArtifactsHead? && GoodField(rootKey, f, p.inRequired)
    ensures ParseLine(rootKey, p, RenderField(f)[0])
         == p.WithEntry(FieldMeaning(f, p.root[p.current])).(inRequired := false)
  {
    assert ARTIFACTS[..4] == "    " && ARTIFACTS[4] == 'a' && CAPABILITIES[4] == 'c';
    FieldLine(rootKey, p, ARTIFACTS, 4, f.tail);
  }

  // A line that starts like `required:` is neither a capabilities nor an artifacts line.
  lemma RequiredHead(line: string)
    requires REQUIRED <= line
    ensures FlowField(line, CAPABILITIES).None? && line != ARTIFACTS
  {
    assert line[4] == REQUIRED[4] == ' ' && CAPABILITIES[4] == 'c' && ARTIFACTS[4] == 'a';
  }

  lemma RequiredFlowLine(rootKey: string, p: Parser, f: Field)
    requires GoodRoot(rootKey) && p.Valid() && p.current != ""
    requires f.RequiredFlow? && GoodField(rootKey, f, p.inRequired)
    ensures ParseLine(rootKey, p, RenderField(f)[0])
         == p.WithEntry(FieldMeaning(f, p.root[p.current])).(inRequired := false)
  {
    var core := REQUIRED + f.gap + RenderFlow(f.parts);
    FlowEnds(REQUIRED, f.gap, f.parts);
    assert core[..6] == "      " && core[6] == 'r';
    FieldLine(rootKey, p, core, 6, f.tail);
    RequiredHead(core);
    FlowFieldReads(REQUIRED, f.gap, f.parts);
    FlowReads(f.parts);
  }

  lemma RequiredHeadLine(rootKey: string, p: Parser, tail: string)
    requires GoodRoot(rootKey) && p.Valid() && p.current != "" && IsPad(tail)
    ensures ParseLine(rootKey, p, REQUIRED + tail)
         == p.WithEntry(p.root[p.current].(artifacts := Some(Artifacts(Some([]))))).(inRequired := true)
  {
    assert REQUIRED[..6] == "      " && REQUIRED[6] == 'r';
    FieldLine(rootKey, p, REQUIRED, 6, tail);
    RequiredHead(REQUIRED);
    assert REQUIRED[|REQUIRED|..] == "";
  }

  function WithRequired(p: Parser, ids: seq<string>): (r: Parser)
    requires p.Valid() && p.current != ""
  {
    p.WithEntry(p.root[p.current].(artifacts := Some(Artifacts(Some(ids))))).(inRequired := true)
  }

  // The core of a list item is recognised as one, and as nothing else.
  lemma ItemCore(gap: string, id: string)
    requires |gap| > 0 && IsPad(gap) && |id| > 0 && NoSpaces(id)
    ensures var core := ITEM + gap + id;
            && IsCore(core, 8) && core[0] == ' ' && core[2] == ' '
            && BlockItem(core) == Some(id)
            && FlowField(core, CAPABILITIES).None? && core != ARTIFACTS
            && FlowField(core, REQUIRED).None? && core != REQUIRED
  {
    var core := ITEM + gap + id;
    assert core[..8] == "        " && core[8] == '-' && core[9] == gap[0];
    assert core[4] == ' ' && core[6] == ' ';
    assert CAPABILITIES[4] == 'c' && ARTIFACTS[4] == 'a' && REQUIRED[6] == 'r';
    assert core[|core| - 1] == id[|id| - 1];
    assert core[|ITEM|..] == gap + id;
    StripLeftPadded(gap, id, IsSpace);
  }

  lemma BlockIdLine(rootKey: string, p: Parser, b: BlockLine, ids: seq<string>)
    requires GoodRoot(rootKey) && p.Valid() && p.current != "" && b.BlockId? && GoodBlockLine(b)
    ensures ParseLine(rootKey, WithRequired(p, ids), RenderBlockLine(b)) == WithRequired(p, ids + [b.id])
  {
    var core := ITEM + b.gap + b.id;
    ItemCore(b.gap, b.id);
    FieldLine(rootKey, WithRequired(p, ids), core, 8, b.tail);
  }

  // One line of a block list adds its identifier, if it has one.
  lemma BlockLineReads(rootKey: string, p: Parser, b: BlockLine, ids: seq<string>)
    requires GoodRoot(rootKey) && p.Valid() && p.current != "" && GoodBlockLine(b)
    ensures ParseLine(rootKey, WithRequired(p, ids), RenderBlockLine(b)) == WithRequired(p, ids + OwnId(b))
  {
    if b.BlockId? {
      BlockIdLine(rootKey, p, b, ids);
    } else {
      assert ids + OwnId(b) == ids;
    }
  }

  lemma ConcatAssociative(a: seq<string>, b: seq<string>, c: seq<string>)
    ensures (a + b) + c == a + (b + c)
  {
  }

  lemma {:induction false} BlockLines(rootKey: string, p: Parser, items: seq<BlockLine>, ids: seq<string>)
    requires GoodRoot(rootKey) && p.Valid() && p.current != ""
    requires forall i :: 0 <= i < |items| ==> GoodBlockLine(items[i])
    ensures ParseFrom(rootKey, WithRequired(p, ids), RenderBlock(items)) == WithRequired(p, ids + BlockIds(items))
    decreases |items|
  {
    if |items| == 0 {
      assert ids + BlockIds(items) == ids;
    } else {
      BlockLineReads(rootKey, p, items[0], ids);
      BlockLines(rootKey, p, items[1..], ids + OwnId(items[0]));
      ConcatAssociative(ids, OwnId(items[0]), BlockIds(items[1..]));
      ParseCons(rootKey, WithRequired(p, ids), RenderBlockLine(items[0]), RenderBlock(items[1..]));
    }
  }

  lemma ParseCons(rootKey: string, p: Parser, line: string, rest: seq<string>)
    requires p.Valid()
    ensures ParseFrom(rootKey, p, [line] + rest) == ParseFrom(rootKey, ParseLine(rootKey, p, line), rest)
  {
    assert ([line] + rest)[1..] == rest;
  }

  lemma NoiseLine(rootKey: string, p: Parser, f: Field)
    requires p.Valid() && p.current != "" && f.Noise? && GoodField(rootKey, f, p.inRequired)
    ensures ParseLine(rootKey, p, f.line) == p.(inRequired := OpenAfter(f, p.inRequired))
  {
  }

  /******* Whole files *******/

  lemma ParseOne(rootKey: string, p: Parser, line: string)
    requires p.Valid()
    ensures ParseFrom(rootKey, p, [line]) == ParseLine(rootKey, p, line)
  {
    assert [line][1..] == [];
  }

  lemma FieldReads(rootKey: string, p: Parser, f: Field)
    requires GoodRoot(rootKey) && p.Valid() && p.current != "" && GoodField(rootKey, f, p.inRequired)
    ensures ParseFrom(rootKey, p, RenderField(f))
         == p.WithEntry(FieldMeaning(f, p.root[p.current])).(inRequired := OpenAfter(f, p.inRequired))
  {
    ParseOne(rootKey, p, RenderField(f)[0]);
    match f
    case Noise(line) =>
      NoiseLine(rootKey, p, f);
      assert p.root == p.root[p.current := p.root[p.current]];
    case Capabilities(_, _, _) => CapabilitiesLine(rootKey, p, f);
    case ArtifactsHead(_) => ArtifactsLine(rootKey, p, f);
    case RequiredFlow(_, _, _) => RequiredFlowLine(rootKey, p, f);
    case RequiredBlock(tail, items) =>
      RequiredHeadLine(rootKey, p, tail);
      BlockLines(rootKey, p, items, []);
      assert [] + BlockIds(items) == BlockIds(items);
      assert RenderField(f)[1..] == RenderBlock(items);
  }

  lemma {:induction false} FieldsRead(rootKey: string, p: Parser, fields: seq<Field>)
    requires GoodRoot(rootKey) && p.Valid() && p.current != "" && GoodFields(rootKey, fields, p.inRequired)
    ensures var r := ParseFrom(rootKey, p, RenderFields(fields));
            && r.root == p.root[p.current := FieldsMeaning(fields, p.root[p.current])]
            && r.inSection && r.current == p.current
    decreases |fields|
  {
    if |fields| == 0 {
      assert p.root == p.root[p.current := p.root[p.current]];
    } else {
      FieldReads(rootKey, p, fields[0]);
      ParseAppend(rootKey, p, RenderField(fields[0]), RenderFields(fields[1..]));
      FieldsRead(rootKey, ParseFrom(rootKey, p, RenderField(fields[0])), fields[1..]);
    }
  }

  lemma NameLine(rootKey: string, p: Parser, name: string, tail: string)
    requires GoodRoot(rootKey) && p.Valid() && p.inSection && GoodName(name) && IsPad(tail)
    ensures ParseLine(rootKey, p, "  " + name + ":" + tail) == Parser(p.root[name := EMPTY_ENTRY], true, name, false)
  {
    NameIff(name);
    NameIff(rootKey);
    var core := "  " + name + ":";
    assert core[..2] == "  " && core[2] == name[0] && IsNameChar(name[0]);
    CoreReads(core, 2, tail);
    assert core[2..|core| - 1] == name;
    assert core[0] == ' ' && (rootKey + ":")[0] == rootKey[0];
  }

  lemma EntryReads(rootKey: string, p: Parser, e: EntryLayout)
    requires GoodRoot(rootKey) && p.Valid() && p.inSection && GoodEntry(rootKey, e)
    ensures var r := ParseFrom(rootKey, p, RenderEntry(e));
            r.root == p.root[e.name := FieldsMeaning(e.fields, EMPTY_ENTRY)] && r.inSection
  {
    var named := Parser(p.root[e.name := EMPTY_ENTRY], true, e.name, false);
    NameLine(rootKey, p, e.name, e.tail);
    FieldsRead(rootKey, named, e.fields);
    ParseCons(rootKey, p, "  " + e.name + ":" + e.tail, RenderFields(e.fields));
    assert p.root[e.name := EMPTY_ENTRY][e.name := FieldsMeaning(e.fields, EMPTY_ENTRY)]
        == p.root[e.name := FieldsMeaning(e.fields, EMPTY_ENTRY)];
  }

  lemma {:induction false} EntriesRead(rootKey: string, p: Parser, entries: seq<EntryLayout>)
    requires GoodRoot(rootKey) && p.Valid() && p.inSection
    requires forall i :: 0 <= i < |entries| ==> GoodEntry(rootKey, entries[i])
    ensures ParseFrom(rootKey, p, RenderEntries(entries)).root == EntriesMeaning(entries, p.root)
    decreases |entries|
  {
    if |entries| > 0 {
      EntryReads(rootKey, p, entries[0]);
      ParseAppend(rootKey, p, RenderEntry(entries[0]), RenderEntries(entries[1..]));
      EntriesRead(rootKey, ParseFrom(rootKey, p, RenderEntry(entries[0])), entries[1..]);
    }
  }

  lemma {:induction false} PreambleSkipped(rootKey: string, p: Parser, lines: seq<string>)
    requires p.Valid() && p.current == ""
    requires forall i :: 0 <= i < |lines| ==> NotRoot(rootKey, lines[i]) && (p.inSection ==> NotEntry(lines[i]))
    ensures ParseFrom(rootKey, p, lines) == p
    decreases |lines|
  {
    if |lines| > 0 {
      PreambleSkipped(rootKey, p, lines[1..]);
    }
  }

  lemma RootLine(rootKey: string, p: Parser, tail: string)
    requires GoodRoot(rootKey) && p.Valid() && IsPad(tail)
    ensures ParseLine(rootKey, p, rootKey + ":" + tail) == Parser(p.root, true, "", false)
  {
    NameIff(rootKey);
    assert IsNameChar(rootKey[0]);
    CoreReads(rootKey + ":", 0, tail);
  }

  // Every layout of a catalog is read as that catalog.
  lemma ParseRender(rootKey: string, d: Layout)
    requires GoodLayout(rootKey, d)
    ensures Parse(rootKey, Render(rootKey, d)) == Meaning(d)
  {
    var rootLine := rootKey + ":" + d.tail;
    var inRoot := Parser(map[], true, "", false);
    ParseAppend(rootKey, START, d.preamble + [rootLine] + d.gap, RenderEntries(d.entries));
    ParseAppend(rootKey, START, d.preamble + [rootLine], d.gap);
    ParseAppend(rootKey, START, d.preamble, [rootLine]);
    PreambleSkipped(rootKey, START, d.preamble);
    ParseOne(rootKey, START, rootLine);
    RootLine(rootKey, START, d.tail);
    PreambleSkipped(rootKey, inRoot, d.gap);
    EntriesRead(rootKey, inRoot, d.entries);
  }

  /******* From the text *******/

  ghost predicate Lines(lines: seq<string>) {
    forall i :: 0 <= i < |lines| ==> OneLine(lines[i])
  }

  lemma {:induction false} JoinOneLine(parts: seq<string>, sep: char)
    requires Lines(parts) && !IsLineBreak(sep)
    ensures OneLine(Join(parts, sep))
  {
    if |parts| > 1 {
      JoinOneLine(parts[1..], sep);
    }
  }

  lemma NameOneLine(name: string)
    requires GoodName(name)
    ensures OneLine(name)
  {
    NameIff(name);
    assert forall i :: 0 <= i < |name| ==> IsNameChar(name[i]);
  }

  lemma OneLineConcat(a: string, b: string)
    requires OneLine(a) && OneLine(b)
    ensures OneLine(a + b)
  {
  }

  lemma HeadsOneLine()
    ensures OneLine(CAPABILITIES) && OneLine(ARTIFACTS) && OneLine(REQUIRED) && OneLine(ITEM)
  {
  }

  lemma PartOneLine(part: FlowPart)
    requires GoodPart(part)
    ensures OneLine(RenderPart(part))
  {
    if part.Id? {
      OneLineConcat(part.quote, part.id);
      OneLineConcat(part.quote + part.id, part.quote);
      OneLineConcat(part.before, part.quote + part.id + part.quote);
      OneLineConcat(part.before + (part.quote + part.id + part.quote), part.after);
    }
  }

  lemma FlowOneLine(parts: seq<FlowPart>)
    requires GoodParts(parts)
    ensures OneLine(RenderFlow(parts))
  {
    forall i | 0 <= i < |parts| ensures OneLine(RenderPart(parts[i])) {
      PartOneLine(parts[i]);
    }
    JoinOneLine(RenderParts(parts), ',');
    OneLineConcat("[", Join(RenderParts(parts), ','));
    OneLineConcat("[" + Join(RenderParts(parts), ','), "]");
  }

  lemma FlowLineOneLine(head: string, gap: string, parts: seq<FlowPart>, tail: string)
    requires OneLine(head) && IsPad(gap) && GoodParts(parts) && IsPad(tail)
    ensures OneLine(head + gap + RenderFlow(parts) + tail)
  {
    FlowOneLine(parts);
    OneLineConcat(head, gap);
    OneLineConcat(head + gap, RenderFlow(parts));
    OneLineConcat(head + gap + RenderFlow(parts), tail);
  }

  lemma BlockLineOneLine(b: BlockLine)
    requires GoodBlockLine(b)
    ensures OneLine(RenderBlockLine(b))
  {
    if b.BlockId? {
      HeadsOneLine();
      OneLineConcat(ITEM, b.gap);
      OneLineConcat(ITEM + b.gap, b.id);
      OneLineConcat(ITEM + b.gap + b.id, b.tail);
    }
  }

  lemma {:induction false} BlockOneLine(items: seq<BlockLine>)
    requires forall i :: 0 <= i < |items| ==> GoodBlockLine(items[i])
    ensures Lines(RenderBlock(items))
  {
    if |items| > 0 {
      BlockOneLine(items[1..]);
      BlockLineOneLine(items[0]);
    }
  }

  lemma FieldOneLine(rootKey: string, f: Field, inRequired: bool)
    requires GoodField(rootKey, f, inRequired)
    ensures Lines(RenderField(f))
  {
    HeadsOneLine();
    match f
    case Noise(_) =>
    case Capabilities(gap, parts, tail) => FlowLineOneLine(CAPABILITIES, gap, parts, tail);
    case ArtifactsHead(tail) => OneLineConcat(ARTIFACTS, tail);
    case RequiredFlow(gap, parts, tail) => FlowLineOneLine(REQUIRED, gap, parts, tail);
    case RequiredBlock(tail, items) =>
      OneLineConcat(REQUIRED, tail);
      BlockOneLine(items);
  }

  lemma {:induction false} FieldsOneLine(rootKey: string, fields: seq<Field>, inRequired: bool)
    requires GoodFields(rootKey, fields, inRequired)
    ensures Lines(RenderFields(fields))
    decreases |fields|
  {
    if |fields| > 0 {
      FieldOneLine(rootKey, fields[0], inRequired);
      FieldsOneLine(rootKey, fields[1..], OpenAfter(fields[0], inRequired));
    }
  }

  lemma {:induction false} EntriesOneLine(rootKey: string, entries: seq<EntryLayout>)
    requires forall i :: 0 <= i < |entries| ==> GoodEntry(rootKey, entries[i])
    ensures Lines(RenderEntries(entries))
  {
    if |entries| > 0 {
      NameOneLine(entries[0].name);
      FieldsOneLine(rootKey, entries[0].fields, false);
      EntriesOneLine(rootKey, entries[1..]);
    }
  }

  lemma RenderedLines(rootKey: string, d: Layout)
    requires GoodLayout(rootKey, d)
    ensures Lines(Render(rootKey, d))
  {
    NameOneLine(rootKey);
    EntriesOneLine(rootKey, d.entries);
  }

  // A text, every line of which is ended in the same way.
  function Text(lines: seq<string>, end: string): (text: string) {
    if |lines| == 0 then "" else lines[0] + end + Text(lines[1..], end)
  }

  lemma {:induction false} LineLengthOf(line: string, rest: string)
    requires OneLine(line) && |rest| > 0 && IsLineBreak(rest[0])
    ensures LineLength(line + rest) == |line|
  {
    if |line| == 0 {
      assert line + rest == rest;
    } else {
      assert (line + rest)[1..] == line[1..] + rest;
      LineLengthOf(line[1..], rest);
    }
  }

  lemma FirstLine(line: string, end: string, rest: string)
    requires OneLine(line) && (end == "\n" || end == "\r\n")
    ensures SplitLines(line + end + rest) == [line] + SplitLines(rest)
  {
    var text, after := line + end + rest, end + rest;
    assert text == line + after;
    LineLengthOf(line, after);
    assert text[..|line|] == line && text[|line|..] == after;
    assert BreakLength(after) == |end| && text[|line| + |end|..] == rest;
  }

  lemma {:induction false} SplitText(lines: seq<string>, end: string)
    requires Lines(lines) && (end == "\n" || end == "\r\n")
    ensures SplitLines(Text(lines, end)) == lines
  {
    if |lines| > 0 {
      FirstLine(lines[0], end, Text(lines[1..], end));
      SplitText(lines[1..], end);
      assert [lines[0]] + lines[1..] == lines;
    }
  }

  // The text of a file that lays a catalog out is read as that catalog.
  lemma ParseText(rootKey: string, d: Layout, end: string)
    requires GoodLayout(rootKey, d) && (end == "\n" || end == "\r\n")
    ensures Parse(rootKey, SplitLines(Text(Render(rootKey, d), end))) == Meaning(d)
  {
    RenderedLines(rootKey, d);
    SplitText(Render(rootKey, d), end);
    ParseRender(rootKey, d);
  }

  /******* Every catalog has a layout *******/

  datatype Named = Named(name: string, entry: Entry)

  ghost predicate GoodIds(ids: Option<seq<string>>) {
    ids.Some? ==> forall i :: 0 <= i < |ids.value| ==> GoodId(ids.value[i])
  }

  ghost predicate GoodCatalog(catalog: seq<Named>) {
    forall i :: 0 <= i < |catalog| ==>
      && GoodName(catalog[i].name) && GoodIds(catalog[i].entry.capabilities)
      && (catalog[i].entry.artifacts.Some? ==> GoodIds(catalog[i].entry.artifacts.value.required))
  }

  function PlainParts(ids: seq<string>): (r: seq<FlowPart>)
    ensures |r| == |ids| && forall i :: 0 <= i < |r| ==> r[i] == Id("", "", ids[i], "")
  {
    if |ids| == 0 then [] else [Id("", "", ids[0], "")] + PlainParts(ids[1..])
  }

  function PlainFields(e: Entry): (r: seq<Field>) {
    (match e.capabilities
     case None => []
     case Some(ids) => [Capabilities(" ", PlainParts(ids), "")])
    + match e.artifacts
      case None => []
      case Some(Artifacts(None)) => [ArtifactsHead("")]
      case Some(Artifacts(Some(ids))) => [ArtifactsHead(""), RequiredFlow(" ", PlainParts(ids), "")]
  }

  function PlainLayout(catalog: seq<Named>): (d: Layout) {
    Layout([], "", [], seq(|catalog|, i requires 0 <= i < |catalog| =>
                             EntryLayout(catalog[i].name, "", PlainFields(catalog[i].entry))))
  }

  function CatalogMap(catalog: seq<Named>, root: map<string, Entry>): (r: map<string, Entry>) {
    if |catalog| == 0 then root else CatalogMap(catalog[1..], root[catalog[0].name := catalog[0].entry])
  }

  lemma PlainPartsCons(id: string, ids: seq<string>)
    ensures PlainParts([id] + ids) == [Id("", "", id, "")] + PlainParts(ids)
    ensures IdsOf([Id("", "", id, "")] + PlainParts(ids)) == [id] + IdsOf(PlainParts(ids))
  {
    var parts := [Id("", "", id, "")] + PlainParts(ids);
    assert ([id] + ids)[1..] == ids && parts[1..] == PlainParts(ids);
  }

  lemma {:induction false} PlainPartsIds(ids: seq<string>)
    ensures IdsOf(PlainParts(ids)) == ids
  {
    if |ids| > 0 {
      assert ids == [ids[0]] + ids[1..];
      PlainPartsCons(ids[0], ids[1..]);
      PlainPartsIds(ids[1..]);
    }
  }

  lemma ConsField(rootKey: string, f: Field, rest: seq<Field>, e: Entry)
    requires GoodField(rootKey, f, false) && !OpenAfter(f, false) && GoodFields(rootKey, rest, false)
    ensures GoodFields(rootKey, [f] + rest, false)
    ensures FieldsMeaning([f] + rest, e) == FieldsMeaning(rest, FieldMeaning(f, e))
  {
    assert ([f] + rest)[1..] == rest;
  }

  lemma PlainArtifactsMean(rootKey: string, e: Entry, base: Entry)
    requires e.artifacts.Some? ==> GoodIds(e.artifacts.value.required)
    requires base == e.(artifacts := None)
    ensures var fields := PlainFields(e.(capabilities := None));
            GoodFields(rootKey, fields, false) && FieldsMeaning(fields, base) == e
  {
    if e.artifacts.Some? {
      var head := ArtifactsHead("");
      if e.artifacts.value.required.Some? {
        var ids := e.artifacts.value.required.value;
        var flow := RequiredFlow(" ", PlainParts(ids), "");
        PlainPartsIds(ids);
        ConsField(rootKey, flow, [], FieldMeaning(head, base));
        ConsField(rootKey, head, [flow], base);
        assert [head] + [flow] == [head, flow] && [flow] + [] == [flow];
        assert e.artifacts == Some(Artifacts(Some(ids)));
        assert FieldMeaning(flow, FieldMeaning(head, base)) == e;
        assert PlainFields(e.(capabilities := None)) == [head, flow];
      } else {
        ConsField(rootKey, head, [], base);
        assert [head] + [] == [head];
      }
    }
  }

  lemma PlainCapabilitiesMean(rootKey: string, e: Entry, ids: seq<string>, rest: seq<Field>)
    requires e.capabilities == Some(ids) && GoodIds(e.capabilities)
    requires GoodFields(rootKey, rest, false) && FieldsMeaning(rest, e.(artifacts := None)) == e
    ensures var fields := [Capabilities(" ", PlainParts(ids), "")] + rest;
            GoodFields(rootKey, fields, false) && FieldsMeaning(fields, EMPTY_ENTRY) == e
  {
    var caps := Capabilities(" ", PlainParts(ids), "");
    PlainPartsIds(ids);
    assert GoodField(rootKey, caps, false) by {
      assert GoodParts(PlainParts(ids));
    }
    ConsField(rootKey, caps, rest, EMPTY_ENTRY);
    assert FieldMeaning(caps, EMPTY_ENTRY) == e.(artifacts := None);
  }

  lemma PlainFieldsMean(rootKey: string, e: Entry)
    requires GoodIds(e.capabilities) && (e.artifacts.Some? ==> GoodIds(e.artifacts.value.required))
    ensures GoodFields(rootKey, PlainFields(e), false) && FieldsMeaning(PlainFields(e), EMPTY_ENTRY) == e
  {
    PlainArtifactsMean(rootKey, e, e.(artifacts := None));
    var rest := PlainFields(e.(capabilities := None));
    if e.capabilities.Some? {
      PlainCapabilitiesMean(rootKey, e, e.capabilities.value, rest);
      assert PlainFields(e) == [Capabilities(" ", PlainParts(e.capabilities.value), "")] + rest;
    } else {
      assert PlainFields(e) == rest;
    }
  }

  lemma {:induction false} PlainEntriesMean(catalog: seq<Named>, root: map<string, Entry>)
    requires GoodCatalog(catalog)
    ensures EntriesMeaning(PlainLayout(catalog).entries, root) == CatalogMap(catalog, root)
    decreases |catalog|
  {
    if |catalog| > 0 {
      PlainFieldsMean("", catalog[0].entry);
      assert PlainLayout(catalog).entries[1..] == PlainLayout(catalog[1..]).entries;
      PlainEntriesMean(catalog[1..], root[catalog[0].name := catalog[0].entry]);
    }
  }

  // Writing a catalog plainly and parsing it gives the catalog back.
  lemma ParsePlain(rootKey: string, catalog: seq<Named>)
    requires GoodRoot(rootKey) && GoodCatalog(catalog)
    ensures Parse(rootKey, Render(rootKey, PlainLayout(catalog))) == CatalogMap(catalog, map[])
  {
    forall i | 0 <= i < |catalog| ensures GoodEntry(rootKey, PlainLayout(catalog).entries[i]) {
      PlainFieldsMean(rootKey, catalog[i].entry);
    }
    ParseRender(rootKey, PlainLayout(catalog));
    PlainEntriesMean(catalog, map[]);
  }
}
