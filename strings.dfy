/** String helpers shared by the builders and the readers. */
module Strings {
  import opened Results

  /** `implode(sep, parts)`: the parts in order, with `sep` between neighbours. */
  function Join(sep: string, parts: seq<string>): string
  {
    if |parts| == 0 then ""
    else if |parts| == 1 then parts[0]
    else parts[0] + sep + Join(sep, parts[1..])
  }

  /** The rest of `s` after `prefix`, if `s` starts with `prefix`. */
  function DropPrefix(prefix: string, s: string): (r: Option<string>)
    ensures r.Some? <==> |prefix| <= |s| && s[..|prefix|] == prefix
    ensures r.Some? ==> s == prefix + r.value
  {
    if |prefix| <= |s| && s[..|prefix|] == prefix then Some(s[|prefix|..]) else None
  }

  lemma DropPrefixOfConcat(prefix: string, rest: string)
    ensures DropPrefix(prefix, prefix + rest) == Some(rest)
  {
    assert (prefix + rest)[..|prefix|] == prefix;
    assert (prefix + rest)[|prefix|..] == rest;
  }

  lemma DropPrefixMismatch(prefix: string, s: string)
    requires prefix != [] && s != [] && s[0] != prefix[0]
    ensures DropPrefix(prefix, s).None?
  {
    if |prefix| <= |s| {
      assert s[..|prefix|][0] != prefix[0];
    }
  }

  /** The placeholder-name characters this model reads after the colon, a subset of those SQLite accepts. */
  predicate IsNameChar(c: char)
  {
    'a' <= c <= 'z' || 'A' <= c <= 'Z' || '0' <= c <= '9' || c == '_'
  }

  /** A non-empty run of placeholder characters. */
  predicate PlainName(s: string)
  {
    |s| > 0 && forall i :: 0 <= i < |s| ==> IsNameChar(s[i])
  }

  /** Splits off the longest prefix of placeholder characters. */
  function ReadName(s: string): (r: (string, string))
    ensures r.0 + r.1 == s
    ensures forall i :: 0 <= i < |r.0| ==> IsNameChar(r.0[i])
    ensures r.1 == [] || !IsNameChar(r.1[0])
  {
    if s != [] && IsNameChar(s[0]) then
      var (name, rest) := ReadName(s[1..]);
      ([s[0]] + name, rest)
    else
      ([], s)
  }

  /** A run of placeholder characters followed by something else reads back whole. */
  lemma {:induction false} ReadNameOfName(name: string, rest: string)
    requires forall i :: 0 <= i < |name| ==> IsNameChar(name[i])
    requires rest == [] || !IsNameChar(rest[0])
    ensures ReadName(name + rest) == (name, rest)
  {
    if name == [] {
      assert name + rest == rest;
    } else {
      assert (name + rest)[1..] == name[1..] + rest;
      ReadNameOfName(name[1..], rest);
      assert [name[0]] + name[1..] == name;
    }
  }
}
