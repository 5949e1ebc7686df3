/**
 * Identifier quoting and the column whitelist: every table and column name
 * the builders interpolate into SQL goes through QuoteIdentifier; the
 * placeholder after each `:` is the raw key.
 */
module Identifiers {
  import opened Results

  /** The quote character SQLite accepts around identifiers. */
  const Backtick: char := '`'

  /** `str_replace('`', '', s)`: `s` with every backtick removed. */
  function StripBackticks(s: string): (r: string)
    ensures Backtick !in r
  {
    if s == [] then []
    else
      assert s == [s[0]] + s[1..];
      if s[0] == Backtick then StripBackticks(s[1..])
      else [s[0]] + StripBackticks(s[1..])
  }

  /** Removing backticks works piecewise, so it keeps the order of the other characters. */
  lemma {:induction false} StripConcat(a: string, b: string)
    ensures StripBackticks(a + b) == StripBackticks(a) + StripBackticks(b)
  {
    if a == [] {
      assert a + b == b;
    } else {
      assert (a + b)[0] == a[0];
      assert (a + b)[1..] == a[1..] + b;
      StripConcat(a[1..], b);
    }
  }

  /** Removing backticks keeps every other character, as often as it occurred. */
  lemma {:induction false} StripKeepsOtherChars(s: string)
    ensures multiset(StripBackticks(s)) == multiset(s)[Backtick := 0]
  {
    if s != [] {
      assert s == [s[0]] + s[1..];
      StripKeepsOtherChars(s[1..]);
    }
  }

  /** A name without backticks is left as it is. */
  lemma {:induction false} StripBacktickFree(s: string)
    requires Backtick !in s
    ensures StripBackticks(s) == s
  {
    if s != [] {
      assert Backtick !in s[1..];
      StripBacktickFree(s[1..]);
    }
  }

  /**
   * `quoteIdentifier`: the name, backticks removed, between two backticks.
   * The only backticks of the result are its first and last character, so
   * the name cannot close its quoted span early.
   */
  function QuoteIdentifier(id: string): (q: string)
    ensures |q| >= 2 && q[0] == Backtick && q[|q| - 1] == Backtick
    ensures forall i :: 0 < i < |q| - 1 ==> q[i] != Backtick
    ensures q[1..|q| - 1] == StripBackticks(id)
  {
    var inner := StripBackticks(id);
    assert ([Backtick] + inner + [Backtick])[1..|inner| + 1] == inner;
    [Backtick] + inner + [Backtick]
  }

  /** Quoting an already quoted name does not quote it twice. */
  lemma QuoteIdempotent(id: string)
    ensures QuoteIdentifier(QuoteIdentifier(id)) == QuoteIdentifier(id)
  {
    var inner := StripBackticks(id);
    var q := QuoteIdentifier(id);
    assert q == ([Backtick] + inner) + [Backtick];
    StripConcat([Backtick] + inner, [Backtick]);
    StripConcat([Backtick], inner);
    StripBacktickFree(inner);
    assert StripBackticks([Backtick]) == [] by {
      assert [Backtick][1..] == [];
    }
    assert StripBackticks(q) == inner;
  }

  /** Two names quote alike exactly when they agree once backticks are removed. */
  lemma QuoteCollision(x: string, y: string)
    ensures QuoteIdentifier(x) == QuoteIdentifier(y) <==> StripBackticks(x) == StripBackticks(y)
  {
    var qx, qy := QuoteIdentifier(x), QuoteIdentifier(y);
    assert qx[1..|qx| - 1] == StripBackticks(x);
    assert qy[1..|qy| - 1] == StripBackticks(y);
  }

  /** How a name is spelled inside a backtick-quoted span: each backtick doubled. */
  function EscapeBackticks(w: string): (e: string)
    ensures |e| >= |w|
  {
    if w == [] then []
    else (if w[0] == Backtick then [Backtick, Backtick] else [w[0]]) + EscapeBackticks(w[1..])
  }

  /**
   * One step of reading a span: the first `n` characters of `s` spell one
   * character of the name (a doubled backtick, or any other character), and
   * the remainder spells the rest of the span.
   */
  lemma SpanGrows(s: string, n: nat, w: string, rest: string)
    requires 0 < n <= |s|
    requires n == 2 ==> s[0] == Backtick && s[1] == Backtick
    requires n == 1 ==> s[0] != Backtick
    requires n <= 2
    requires s[n..] == EscapeBackticks(w) + [Backtick] + rest
    ensures s == EscapeBackticks([s[0]] + w) + [Backtick] + rest
  {
    var c := [s[0]] + w;
    assert c[0] == s[0] && c[1..] == w;
    assert EscapeBackticks(c) == s[..n] + EscapeBackticks(w);
    assert s == s[..n] + s[n..];
  }

  /**
   * The body of a quoted span up to its closing backtick, and the text after
   * that backtick. As in SQLite, a doubled backtick inside the span stands
   * for one backtick of the name, and the span closes at the first backtick
   * that is not doubled. SQLite also stops at a NUL character, which makes
   * the statement fail; this reader does not.
   */
  function ReadUntilBacktick(s: string): (r: Option<(string, string)>)
    ensures r.Some? ==> s == EscapeBackticks(r.value.0) + [Backtick] + r.value.1
    ensures r.Some? ==> r.value.1 == [] || r.value.1[0] != Backtick
    ensures r.Some? ==> |r.value.1| < |s|
  {
    if s == [] then None
    else if s[0] == Backtick then
      if |s| > 1 && s[1] == Backtick then
        match ReadUntilBacktick(s[2..])
        case None => None
        case Some((w, rest)) =>
          SpanGrows(s, 2, w, rest);
          Some(([Backtick] + w, rest))
      else
        assert s == [Backtick] + s[1..];
        Some(([], s[1..]))
    else
      match ReadUntilBacktick(s[1..])
      case None => None
      case Some((w, rest)) =>
        SpanGrows(s, 1, w, rest);
        Some(([s[0]] + w, rest))
  }

  /**
   * A backtick-quoted name at the start of `s`, read with SQLite's
   * delimiter rule: the name (doubled backticks inside the span read as one)
   * and the text after the closing backtick. A NUL character, which SQLite
   * refuses inside a quoted span, is read as part of the name.
   */
  function ReadQuoted(s: string): (r: Option<(string, string)>)
    ensures r.Some? ==> s == [Backtick] + EscapeBackticks(r.value.0) + [Backtick] + r.value.1
    ensures r.Some? ==> r.value.1 == [] || r.value.1[0] != Backtick
    ensures r.Some? ==> |r.value.1| + 2 <= |s|
  {
    if |s| > 0 && s[0] == Backtick then
      assert s == [s[0]] + s[1..];
      ReadUntilBacktick(s[1..])
    else None
  }

  lemma {:induction false} ReadUntilBacktickFree(w: string, rest: string)
    requires Backtick !in w
    requires rest == [] || rest[0] != Backtick
    ensures ReadUntilBacktick(w + [Backtick] + rest) == Some((w, rest))
  {
    var s := w + [Backtick] + rest;
    if w == [] {
      assert s == [Backtick] + rest;
      assert s[1..] == rest;
    } else {
      assert s[0] == w[0];
      assert s[1..] == w[1..] + [Backtick] + rest;
      ReadUntilBacktickFree(w[1..], rest);
      assert [w[0]] + w[1..] == w;
    }
  }

  /**
   * Delimiter safety: whatever follows a quoted name (short of a backtick,
   * which SQLite would take as doubling the closing one), the name reads
   * back as the original with its backticks removed and reading resumes
   * right after it.
   */
  lemma QuoteReadsBack(id: string, rest: string)
    requires rest == [] || rest[0] != Backtick
    ensures ReadQuoted(QuoteIdentifier(id) + rest) == Some((StripBackticks(id), rest))
  {
    var w := StripBackticks(id);
    var s := QuoteIdentifier(id) + rest;
    assert s[0] == Backtick;
    assert s[1..] == w + [Backtick] + rest;
    ReadUntilBacktickFree(w, rest);
  }

  /** Text that starts with a backtick right after a quoted name is read as part of the name. */
  lemma QuoteThenBacktick(id: string, rest: string)
    requires rest != [] && rest[0] == Backtick
    ensures ReadQuoted(QuoteIdentifier(id) + rest) != Some((StripBackticks(id), rest))
  {
  }

  /**
   * `validateColumn`: the quoted column when it is on the whitelist, an
   * InvalidColumn error naming it otherwise.
   */
  function ValidateColumn(column: string, allowed: seq<string>): (r: Result<string>)
    ensures r.Ok? <==> column in allowed
    ensures r.Ok? ==> r.value == QuoteIdentifier(column)
    ensures r.Err? ==> r.error == InvalidColumn(column)
  {
    if column !in allowed then Err(InvalidColumn(column))
    else Ok(QuoteIdentifier(column))
  }

  /** A validated column is a single quoted name that reads back as a whitelisted column. */
  lemma ValidatedColumnReadsBack(column: string, allowed: seq<string>)
    requires ValidateColumn(column, allowed).Ok?
    ensures exists c :: (c in allowed &&
      ReadQuoted(ValidateColumn(column, allowed).value) == Some((StripBackticks(c), [])))
  {
    QuoteReadsBack(column, []);
    assert QuoteIdentifier(column) + [] == QuoteIdentifier(column);
  }

  /** A column outside the whitelist is refused, as in the documented `secret` case ... */
  lemma WhitelistRefuses()
    ensures ValidateColumn("secret", ["id", "name"]) == Err(InvalidColumn("secret"))
  {
    assert "secret" != "id" && "secret" != "name";
  }

  /** ... and a listed plain column such as `name` comes back merely wrapped in backticks. */
  lemma WhitelistAccepts(column: string, allowed: seq<string>)
    requires column in allowed && Backtick !in column
    ensures ValidateColumn(column, allowed) == Ok([Backtick] + column + [Backtick])
  {
    StripBacktickFree(column);
  }
}
