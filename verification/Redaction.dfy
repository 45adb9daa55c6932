/**
 Redaction of JSON bodies before they are logged: the value under a sensitive key is masked, at any
 depth.  What the log can still tell about a document is stated by observing it along paths.
 */
module Redaction {
  import opened Options
  import opened Strings

  datatype Json =
    | Null
    | Bool(b: bool)
    | Number(text: string)
    | String(s: string)
    | Array(items: seq<Json>)
    | Object(fields: map<string, Json>)

  const MASK := String("[redacted]")

  /******* Sensitive keys *******/

  const FRAGMENTS: seq<string> :=
    ["password", "token", "authorization", "secret", "privatekey", "private_key", "credential"]

  // Lower case, as far as it can produce an ASCII letter: the capital dotted I and the Kelvin sign
  // are the two characters outside ASCII that do.
  function Lower(c: char): (r: char) {
    if 'A' <= c <= 'Z' then (c as int - 'A' as int + 'a' as int) as char
    else if c == '\U{0130}' then 'i'
    else if c == '\U{212A}' then 'k'
    else c
  }

  function ToLower(s: string): (r: string)
    ensures |r| == |s|
  {
    seq(|s|, i requires 0 <= i < |s| => Lower(s[i]))
  }

  predicate OccursAt(s: string, fragment: string, i: nat) {
    i + |fragment| <= |s| && forall k :: 0 <= k < |fragment| ==> s[i + k] == fragment[k]
  }

  predicate Contains(s: string, fragment: string) {
    exists i :: 0 <= i <= |s| && OccursAt(s, fragment, i)
  }

  predicate IsSensitiveKey(key: string) {
    exists j :: 0 <= j < |FRAGMENTS| && Contains(ToLower(Strip(key, IsGoSpace)), FRAGMENTS[j])
  }

  method CheckSensitiveKey(key: string) returns (r: bool)
    ensures r == IsSensitiveKey(key)
  {
    var normalized := ToLower(Strip(key, IsGoSpace));
    for j := 0 to |FRAGMENTS|
      invariant forall i :: 0 <= i < j ==> !Contains(normalized, FRAGMENTS[i])
    {
      if Contains(normalized, FRAGMENTS[j]) {
        return true;
      }
    }
    return false;
  }

  predicate IsWord(fragment: string) {
    |fragment| > 0 && forall i :: 0 <= i < |fragment| ==> 'a' <= fragment[i] <= 'z' || fragment[i] == '_'
  }

  // Stripping keeps a slice of the key and cuts off white space on both sides.
  lemma StripIsSlice(key: string) returns (from: nat, to: nat)
    ensures from <= to <= |key| && Strip(key, IsGoSpace) == key[from..to]
    ensures forall i :: 0 <= i < |key| && !IsGoSpace(key[i]) ==> from <= i < to
  {
    var a := StripLeft(key, IsGoSpace);
    StripLeftIsSuffix(key, IsGoSpace);
    StripRightIsPrefix(a, IsGoSpace);
    from := |key| - |a|;
    to := from + |Strip(key, IsGoSpace)|;
    forall i | 0 <= i < |key| && !IsGoSpace(key[i]) ensures from <= i < to {
      if from <= i {
        assert key[i] == a[i - from];
      }
    }
  }

  lemma WordIsNotSpace(key: string, fragment: string, i: nat)
    requires IsWord(fragment) && OccursAt(ToLower(key), fragment, i)
    ensures !IsGoSpace(key[i]) && !IsGoSpace(key[i + |fragment| - 1])
  {
    var n := |fragment| - 1;
    assert ToLower(key)[i + 0] == fragment[0] && ToLower(key)[i + n] == fragment[n];
  }

  // No word contains white space, so stripping cuts no occurrence of a word.
  lemma ContainsUnstripped(key: string, fragment: string)
    requires IsWord(fragment)
    ensures Contains(ToLower(Strip(key, IsGoSpace)), fragment) <==> Contains(ToLower(key), fragment)
  {
    var from, to := StripIsSlice(key);
    var b := Strip(key, IsGoSpace);
    if Contains(ToLower(b), fragment) {
      var i :| 0 <= i <= |b| && OccursAt(ToLower(b), fragment, i);
      forall k | 0 <= k < |fragment| ensures ToLower(key)[from + i + k] == fragment[k] {
        assert ToLower(b)[i + k] == fragment[k];
      }
      assert OccursAt(ToLower(key), fragment, from + i);
    }
    if Contains(ToLower(key), fragment) {
      var i :| 0 <= i <= |key| && OccursAt(ToLower(key), fragment, i);
      WordIsNotSpace(key, fragment, i);
      forall k | 0 <= k < |fragment| ensures ToLower(b)[i - from + k] == fragment[k] {
        assert ToLower(key)[i + k] == fragment[k];
      }
      assert OccursAt(ToLower(b), fragment, i - from);
    }
  }

  // A character that counts as the letter: itself, its capital, or one of the two characters outside
  // ASCII whose lower case it is.
  predicate CountsAs(c: char, letter: char) {
    || c == letter
    || ('a' <= letter <= 'z' && c as int + 32 == letter as int)
    || (letter == 'i' && c == '\U{0130}')
    || (letter == 'k' && c == '\U{212A}')
  }

  // The fragment stands in the key at i, letter by letter.
  ghost predicate SpelledAt(key: string, i: nat, fragment: string) {
    i + |fragment| <= |key| && forall k :: 0 <= k < |fragment| ==> CountsAs(key[i + k], fragment[k])
  }

  lemma LowerIs(c: char, letter: char)
    requires 'a' <= letter <= 'z' || letter == '_'
    ensures Lower(c) == letter <==> CountsAs(c, letter)
  {
  }

  lemma OccursIffSpelled(key: string, fragment: string, i: nat)
    requires IsWord(fragment)
    ensures OccursAt(ToLower(key), fragment, i) <==> SpelledAt(key, i, fragment)
  {
    if i + |fragment| <= |key| {
      forall k | 0 <= k < |fragment| ensures ToLower(key)[i + k] == fragment[k] <==> CountsAs(key[i + k], fragment[k]) {
        LowerIs(key[i + k], fragment[k]);
      }
    }
  }

  // Whether a sensitive word is spelled somewhere in the key.
  ghost predicate SpellsOneOf(key: string, words: seq<string>) {
    exists j, i :: 0 <= j < |words| && 0 <= i <= |key| && SpelledAt(key, i, words[j])
  }

  // A key is sensitive exactly when one of the seven words is spelled in it, in capitals or not.
  lemma SensitiveIff(key: string)
    ensures IsSensitiveKey(key) <==>
              SpellsOneOf(key, ["password", "token", "authorization", "secret", "privatekey", "private_key", "credential"])
  {
    forall j | 0 <= j < |FRAGMENTS|
      ensures Contains(ToLower(Strip(key, IsGoSpace)), FRAGMENTS[j]) <==>
                exists i :: 0 <= i <= |key| && SpelledAt(key, i, FRAGMENTS[j])
    {
      ContainsUnstripped(key, FRAGMENTS[j]);
      forall i: nat ensures OccursAt(ToLower(key), FRAGMENTS[j], i) <==> SpelledAt(key, i, FRAGMENTS[j]) {
        OccursIffSpelled(key, FRAGMENTS[j], i);
      }
    }
    assert FRAGMENTS == ["password", "token", "authorization", "secret", "privatekey", "private_key", "credential"];
  }

  // The same letter, in either case.
  predicate SameLetter(a: char, b: char) {
    a == b || ('a' <= a <= 'z' && b as int + 32 == a as int) || ('a' <= b <= 'z' && a as int + 32 == b as int)
  }

  lemma SpelledInAnyCase(key: string, other: string, i: nat, fragment: string)
    requires |key| == |other| && forall k :: 0 <= k < |key| ==> SameLetter(key[k], other[k])
    requires IsWord(fragment) && SpelledAt(key, i, fragment)
    ensures SpelledAt(other, i, fragment)
  {
    forall k | 0 <= k < |fragment| ensures CountsAs(other[i + k], fragment[k]) {
      assert CountsAs(key[i + k], fragment[k]) && SameLetter(key[i + k], other[i + k]);
    }
  }

  // Changing the case of ASCII letters changes nothing.
  lemma CaseIrrelevant(key: string, other: string)
    requires |key| == |other| && forall k :: 0 <= k < |key| ==> SameLetter(key[k], other[k])
    ensures IsSensitiveKey(key) <==> IsSensitiveKey(other)
  {
    SensitiveIff(key);
    SensitiveIff(other);
    var words := ["password", "token", "authorization", "secret", "privatekey", "private_key", "credential"];
    assert words == FRAGMENTS;
    forall j, i: nat | 0 <= j < |words| ensures SpelledAt(key, i, words[j]) <==> SpelledAt(other, i, words[j]) {
      assert IsWord(words[j]);
      if SpelledAt(key, i, words[j]) {
        SpelledInAnyCase(key, other, i, words[j]);
      }
      if SpelledAt(other, i, words[j]) {
        SpelledInAnyCase(other, key, i, words[j]);
      }
    }
  }

  /******* Redaction *******/

  function Redact(v: Json): (r: Json) {
    match v
    case Object(fields) =>
      Object(map k | k in fields :: if IsSensitiveKey(k) then MASK else Redact(fields[k]))
    case Array(items) => Array(seq(|items|, i requires 0 <= i < |items| => Redact(items[i])))
    case _ => v
  }

  method RedactJSONValue(v: Json) returns (r: Json)
    ensures r == Redact(v)
    decreases v
  {
    match v
    case Object(fields) =>
      var out: map<string, Json> := map[];
      var todo := fields.Keys;
      while todo != {}
        invariant todo <= fields.Keys
        invariant out.Keys == fields.Keys - todo
        invariant forall k :: k in out ==> out[k] == Redact(v).fields[k]
        decreases todo
      {
        var key :| key in todo;
        var sensitive := CheckSensitiveKey(key);
        if sensitive {
          out := out[key := MASK];
        } else {
          var child := RedactJSONValue(fields[key]);
          out := out[key := child];
        }
        todo := todo - {key};
      }
      r := Object(out);
    case Array(items) =>
      var out := [];
      for i := 0 to |items|
        invariant |out| == i
        invariant forall j :: 0 <= j < i ==> out[j] == Redact(items[j])
      {
        var child := RedactJSONValue(items[i]);
        out := out + [child];
      }
      r := Array(out);
    case _ => r := v;
  }

  /******* Observing a document *******/

  datatype Step = Key(key: string) | Index(index: nat)

  // What a node is, without what lies below it.
  datatype Shape = Leaf(value: Json) | Items(length: nat) | Keys(keys: set<string>)

  function ShapeOf(v: Json): (r: Shape) {
    match v
    case Array(items) => Items(|items|)
    case Object(fields) => Keys(fields.Keys)
    case _ => Leaf(v)
  }

  function Child(v: Json, step: Step): (r: Option<Json>) {
    match (v, step)
    case (Array(items), Index(i)) => if i < |items| then Some(items[i]) else None
    case (Object(fields), Key(k)) => if k in fields then Some(fields[k]) else None
    case _ => None
  }

  function At(v: Json, path: seq<Step>): (r: Option<Json>)
    decreases |path|
  {
    if |path| == 0 then Some(v)
    else
      match Child(v, path[0])
      case None => None
      case Some(w) => At(w, path[1..])
  }

  function Observe(v: Json, path: seq<Step>): (r: Option<Shape>) {
    match At(v, path)
    case None => None
    case Some(w) => Some(ShapeOf(w))
  }

  // The path does not go beneath a sensitive key.
  predicate Public(path: seq<Step>) {
    forall i :: 0 <= i < |path| && path[i].Key? ==> !IsSensitiveKey(path[i].key)
  }

  ghost predicate SamePublicly(a: Json, b: Json) {
    forall path :: Public(path) ==> Observe(a, path) == Observe(b, path)
  }

  // Redaction keeps every node that is not beneath a sensitive key: leaves, keys and lengths.
  lemma {:induction false} RedactKeepsPublic(v: Json, path: seq<Step>)
    requires Public(path)
    ensures Observe(Redact(v), path) == Observe(v, path)
    decreases |path|
  {
    if |path| == 0 {
      assert v.Object? ==> Redact(v).fields.Keys == v.fields.Keys;
    } else if Child(v, path[0]).Some? {
      assert Public(path[1..]);
      assert Child(Redact(v), path[0]) == Some(Redact(Child(v, path[0]).value));
      RedactKeepsPublic(Child(v, path[0]).value, path[1..]);
    }
  }

  lemma ChildSamePublicly(a: Json, b: Json, step: Step)
    requires SamePublicly(a, b) && Child(a, step).Some? && Child(b, step).Some?
    requires step.Key? ==> !IsSensitiveKey(step.key)
    ensures SamePublicly(Child(a, step).value, Child(b, step).value)
  {
    forall path | Public(path)
      ensures Observe(Child(a, step).value, path) == Observe(Child(b, step).value, path)
    {
      var longer := [step] + path;
      assert longer[1..] == path && longer[0] == step;
      assert Public(longer);
      assert Observe(a, longer) == Observe(b, longer);
    }
  }

  lemma {:induction false} SamePubliclyRedactsSame(a: Json, b: Json)
    requires SamePublicly(a, b)
    ensures Redact(a) == Redact(b)
    decreases a
  {
    assert Public([]) && Observe(a, []) == Observe(b, []);
    match a
    case Object(fields) =>
      forall k | k in fields && !IsSensitiveKey(k) ensures Redact(fields[k]) == Redact(b.fields[k]) {
        ChildSamePublicly(a, b, Key(k));
        SamePubliclyRedactsSame(fields[k], b.fields[k]);
      }
    case Array(items) =>
      forall i | 0 <= i < |items| ensures Redact(items[i]) == Redact(b.items[i]) {
        ChildSamePublicly(a, b, Index(i));
        SamePubliclyRedactsSame(items[i], b.items[i]);
      }
    case _ =>
  }

  // The log tells two documents apart exactly when they differ somewhere that is public.
  lemma RedactedEqualIff(a: Json, b: Json)
    ensures Redact(a) == Redact(b) <==> SamePublicly(a, b)
  {
    if Redact(a) == Redact(b) {
      forall path | Public(path) ensures Observe(a, path) == Observe(b, path) {
        RedactKeepsPublic(a, path);
        RedactKeepsPublic(b, path);
      }
    }
    if SamePublicly(a, b) {
      SamePubliclyRedactsSame(a, b);
    }
  }

  lemma RedactIdempotent(v: Json)
    ensures Redact(Redact(v)) == Redact(v)
  {
    forall path | Public(path) ensures Observe(Redact(v), path) == Observe(v, path) {
      RedactKeepsPublic(v, path);
    }
    SamePubliclyRedactsSame(Redact(v), v);
  }

  // Every sensitive field that a public path leads to is masked already.
  ghost predicate Masked(v: Json) {
    forall path, k :: Public(path) && IsSensitiveKey(k) ==>
      match At(v, path + [Key(k)])
      case None => true
      case Some(w) => w == MASK
  }

  lemma ChildMasked(v: Json, step: Step)
    requires Masked(v) && Child(v, step).Some? && (step.Key? ==> !IsSensitiveKey(step.key))
    ensures Masked(Child(v, step).value)
  {
    var w := Child(v, step).value;
    forall path, k | Public(path) && IsSensitiveKey(k)
      ensures At(w, path + [Key(k)]).Some? ==> At(w, path + [Key(k)]).value == MASK
    {
      var longer := [step] + path;
      assert Public(longer);
      assert (longer + [Key(k)])[1..] == path + [Key(k)];
      assert At(v, longer + [Key(k)]) == At(w, path + [Key(k)]);
    }
  }

  lemma {:induction false} MaskedUnchanged(v: Json)
    requires Masked(v)
    ensures Redact(v) == v
    decreases v
  {
    match v
    case Object(fields) =>
      forall k | k in fields ensures Redact(v).fields[k] == fields[k] {
        if IsSensitiveKey(k) {
          assert Public([]) && [] + [Key(k)] == [Key(k)];
          assert At(v, [Key(k)]) == At(fields[k], [Key(k)][1..]);
        } else {
          ChildMasked(v, Key(k));
          MaskedUnchanged(fields[k]);
        }
      }
      assert Redact(v).fields == fields;
    case Array(items) =>
      forall i | 0 <= i < |items| ensures Redact(items[i]) == items[i] {
        ChildMasked(v, Index(i));
        MaskedUnchanged(items[i]);
      }
    case _ =>
  }

  // After redaction a public path followed by a sensitive key leads to the mask.
  lemma {:induction false} RedactedField(v: Json, path: seq<Step>, k: string)
    requires Public(path) && IsSensitiveKey(k) && At(Redact(v), path + [Key(k)]).Some?
    ensures At(Redact(v), path + [Key(k)]) == Some(String("[redacted]"))
    decreases |path|
  {
    var full := path + [Key(k)];
    if |path| == 0 {
      assert full == [Key(k)];
    } else {
      assert full[1..] == path[1..] + [Key(k)];
      assert Child(v, path[0]).Some?;
      RedactedField(Child(v, path[0]).value, path[1..], k);
    }
  }

  // Redaction changes nothing exactly when nothing is left to mask, for example when no key is
  // sensitive at any depth.
  lemma RedactIdentityIff(v: Json)
    ensures Redact(v) == v <==> Masked(v)
  {
    if Masked(v) {
      MaskedUnchanged(v);
    }
    if Redact(v) == v {
      forall path, k | Public(path) && IsSensitiveKey(k) && At(v, path + [Key(k)]).Some?
        ensures At(v, path + [Key(k)]).value == MASK
      {
        RedactedField(v, path, k);
      }
    }
  }
}
