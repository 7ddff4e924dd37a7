/** `dequote_str`: Rust's `trim_matches('"')`, which strips every leading and
    every trailing double quote and keeps the ones inside. */
module Quotes {

  const Quote: char := '"'

  /** Every character of `s` is a double quote. */
  predicate AllQuotes(s: string)
  {
    forall k :: 0 <= k < |s| ==> s[k] == Quote
  }

  /** `s` neither starts nor ends with a double quote. */
  predicate Unquoted(s: string)
  {
    |s| == 0 || (s[0] != Quote && s[|s| - 1] != Quote)
  }

  /** `s` is `i` quotes, then `m`, then nothing but quotes. */
  predicate SplitsAs(s: string, i: nat, m: string)
  {
    && i + |m| <= |s|
    && AllQuotes(s[..i])
    && s[i..i + |m|] == m
    && AllQuotes(s[i + |m|..])
  }

  /** Strips the leading quotes: what is left is a suffix of `s` that does not start with one. */
  function TrimStart(s: string): (r: string)
    ensures |r| <= |s| && r == s[|s| - |r|..]
    ensures AllQuotes(s[..|s| - |r|])
    ensures |r| > 0 ==> r[0] != Quote
    decreases |s|
  {
    if |s| > 0 && s[0] == Quote then TrimStart(s[1..]) else s
  }

  /** Strips the trailing quotes: what is left is a prefix of `s` that does not end with one. */
  function TrimEnd(s: string): (r: string)
    ensures |r| <= |s| && r == s[..|r|]
    ensures AllQuotes(s[|r|..])
    ensures |r| > 0 ==> r[|r| - 1] != Quote
    decreases |s|
  {
    if |s| > 0 && s[|s| - 1] == Quote then TrimEnd(s[..|s| - 1]) else s
  }

  /** The result has no quote at either end. */
  function Dequote(s: string): (r: string)
    ensures Unquoted(r)
  {
    TrimEnd(TrimStart(s))
  }

  /** Quotes, a suffix `t`, and then quotes at the end of `t`: that is a split. */
  lemma SplitOfTrims(s: string, t: string, r: string)
    requires |t| <= |s| && t == s[|s| - |t|..] && AllQuotes(s[..|s| - |t|])
    requires |r| <= |t| && r == t[..|r|] && AllQuotes(t[|r|..])
    ensures SplitsAs(s, |s| - |t|, r)
  {
    var i := |s| - |t|;
    assert s[i..i + |r|] == t[..|r|];
    assert s[i + |r|..] == t[|r|..];
  }

  /** Dequoting keeps one contiguous middle piece of `s`, interior quotes
      included: `s` is a run of quotes, the result, then a run of quotes. */
  lemma {:induction false} DequoteSplits(s: string)
    ensures SplitsAs(s, |s| - |TrimStart(s)|, Dequote(s))
  {
    SplitOfTrims(s, TrimStart(s), TrimEnd(TrimStart(s)));
  }

  lemma {:induction false} TrimStartOfQuotes(q: string, t: string)
    requires AllQuotes(q)
    requires |t| == 0 || t[0] != Quote
    ensures TrimStart(q + t) == t
    decreases |q|
  {
    if |q| > 0 {
      assert (q + t)[1..] == q[1..] + t;
      TrimStartOfQuotes(q[1..], t);
    } else {
      assert q + t == t;
    }
  }

  lemma {:induction false} TrimEndOfQuotes(t: string, q: string)
    requires AllQuotes(q)
    requires |t| == 0 || t[|t| - 1] != Quote
    ensures TrimEnd(t + q) == t
    decreases |q|
  {
    if |q| > 0 {
      assert (t + q)[..|t + q| - 1] == t + q[..|q| - 1];
      TrimEndOfQuotes(t, q[..|q| - 1]);
    } else {
      assert t + q == t;
    }
  }

  /** The result is determined by the shape: whenever `s` is quotes, an
      unquoted middle `m`, then quotes, dequoting gives exactly `m`. */
  lemma {:induction false} DequoteUnique(s: string, i: nat, m: string)
    requires SplitsAs(s, i, m)
    requires Unquoted(m)
    ensures Dequote(s) == m
  {
    var rest := s[i + |m|..];
    if |m| == 0 {
      assert s == s[..i] + rest;
      assert AllQuotes(s);
      TrimStartOfQuotes(s, "");
      assert s + "" == s;
    } else {
      assert s == s[..i] + (m + rest);
      TrimStartOfQuotes(s[..i], m + rest);
      TrimEndOfQuotes(m, rest);
    }
  }

  /** Dequoting twice is the same as dequoting once. */
  lemma DequoteIdempotent(s: string)
    ensures Dequote(Dequote(s)) == Dequote(s)
  {
  }

  /** Dequoting undoes the double quotes a string's display adds, provided
      the string itself does not start or end with one. */
  lemma DequoteQuoted(m: string)
    requires Unquoted(m)
    ensures Dequote("\"" + m + "\"") == m
  {
    var s := "\"" + m + "\"";
    assert s[..1] == "\"";
    assert s[1..1 + |m|] == m;
    assert s[1 + |m|..] == "\"";
    DequoteUnique(s, 1, m);
  }
}
