/** The storage key of a poster: which file it is a frame of, and which revision of that file. */
module PosterKeys {
  import opened Options
  import opened Strings
  import opened PercentEncoding

  const PREFIX := "appliance.controlplane-ui.video-poster."

  function PosterStorageKey(path: string, modifiedAt: string): (key: string) {
    PREFIX + Encode(path) + ":" + modifiedAt
  }

  lemma SplitAtFirst(a: string, b: string, a': string, b': string, sep: char)
    requires Without(a, sep) && Without(a', sep)
    requires a + [sep] + b == a' + [sep] + b'
    ensures a == a' && b == b'
  {
    var s := a + [sep] + b;
    assert s[|a|] == sep && s[|a'|] == sep;
    assert |a| == |a'|;
    assert s[..|a|] == a && s[..|a'|] == a';
    assert s[|a| + 1..] == b && s[|a'| + 1..] == b';
  }

  lemma AfterPrefix(path: string, modifiedAt: string)
    ensures PosterStorageKey(path, modifiedAt)[|PREFIX|..] == Encode(path) + [':'] + modifiedAt
    ensures Without(Encode(path), ':')
  {
    var tail := Encode(path) + [':'] + modifiedAt;
    assert PosterStorageKey(path, modifiedAt) == PREFIX + tail;
    EncodeAlphabet(path);
    assert !IsEncodedChar(':');
  }

  // No two files, and no two revisions of a file, share a key.
  lemma KeyInjective(path: string, modifiedAt: string, path': string, modifiedAt': string)
    requires PosterStorageKey(path, modifiedAt) == PosterStorageKey(path', modifiedAt')
    ensures path == path' && modifiedAt == modifiedAt'
  {
    AfterPrefix(path, modifiedAt);
    AfterPrefix(path', modifiedAt');
    SplitAtFirst(Encode(path), modifiedAt, Encode(path'), modifiedAt', ':');
    EncodeInjective(path, path');
  }

  // The file and the revision can be read off a key.
  lemma KeyReadsBack(path: string, modifiedAt: string)
    ensures exists encoded :: Without(encoded, ':') && Decode(encoded) == Some(path)
              && PosterStorageKey(path, modifiedAt) == "appliance.controlplane-ui.video-poster." + encoded + ":" + modifiedAt
  {
    AfterPrefix(path, modifiedAt);
    DecodeEncode(path);
  }
}
