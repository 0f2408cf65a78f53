/** String helpers the feature library relies on: decimal rendering of a
    counter (`std::to_string`), whitespace trimming (`TrimString`), and
    joining/splitting a line of separator-delimited tokens. */
module StringUtil {

  // ---------------------------------------------------------------------------
  // Decimal rendering of natural numbers
  // ---------------------------------------------------------------------------

  predicate IsDigit(c: char) {
    '0' <= c <= '9'
  }

  predicate AllDigits(s: string) {
    forall i :: 0 <= i < |s| ==> IsDigit(s[i])
  }

  function DigitChar(d: nat): (c: char)
    requires d < 10
    ensures IsDigit(c)
  {
    ('0' as int + d) as char
  }

  /** The decimal spelling of `n`, as `std::to_string` writes a non-negative
      integer: at least one digit and no leading zero. */
  function NatToDecimal(n: nat): (s: string)
    ensures |s| > 0 && AllDigits(s)
    ensures s == "0" <==> n == 0
    ensures s[0] == '0' ==> n == 0
    decreases n
  {
    if n < 10 then [DigitChar(n)]
    else NatToDecimal(n / 10) + [DigitChar(n % 10)]
  }

  /** The number a string of decimal digits denotes (an independent reader of
      what `NatToDecimal` writes). */
  function DecimalValue(s: string): nat
    requires AllDigits(s)
    decreases |s|
  {
    if s == [] then 0
    else DecimalValue(s[..|s| - 1]) * 10 + (s[|s| - 1] as int - '0' as int)
  }

  /** Reading back a rendered number gives the number. */
  lemma {:induction false} DecimalRoundTrip(n: nat)
    ensures DecimalValue(NatToDecimal(n)) == n
    decreases n
  {
    if n >= 10 {
      DecimalRoundTrip(n / 10);
      var s := NatToDecimal(n);
      assert s[..|s| - 1] == NatToDecimal(n / 10);
    }
  }

  /** Distinct numbers have distinct spellings. */
  lemma NatToDecimalInjective(a: nat, b: nat)
    ensures NatToDecimal(a) == NatToDecimal(b) ==> a == b
  {
    DecimalRoundTrip(a);
    DecimalRoundTrip(b);
  }

  // ---------------------------------------------------------------------------
  // Substrings
  // ---------------------------------------------------------------------------

  /** `t` occurs in `s` starting at position `k`. */
  predicate OccursAt(s: string, t: string, k: nat) {
    k + |t| <= |s| && s[k..k + |t|] == t
  }

  // ---------------------------------------------------------------------------
  // Trimming
  // ---------------------------------------------------------------------------

  /** The characters C's `isspace` accepts in the default locale. */
  predicate IsSpace(c: char) {
    c == ' ' || c == '\t' || c == '\n' || c == '\r' || c == '\U{B}' || c == '\U{C}'
  }

  function TrimLeft(s: string): (r: string)
    ensures |r| <= |s| && r == s[|s| - |r|..]
    ensures r == [] || !IsSpace(r[0])
    ensures forall i :: 0 <= i < |s| - |r| ==> IsSpace(s[i])
    decreases |s|
  {
    if s != [] && IsSpace(s[0]) then TrimLeft(s[1..]) else s
  }

  function TrimRight(s: string): (r: string)
    ensures |r| <= |s| && r == s[..|r|]
    ensures r == [] || !IsSpace(r[|r| - 1])
    ensures forall i :: |r| <= i < |s| ==> IsSpace(s[i])
    decreases |s|
  {
    if s != [] && IsSpace(s[|s| - 1]) then TrimRight(s[..|s| - 1]) else s
  }

  /** `TrimString`: `s` with its leading and trailing whitespace removed.
      The result is a contiguous piece of `s` with no whitespace at either
      end, and everything cut off is whitespace. */
  function Trim(s: string): (r: string)
    ensures exists i, j ::
      && 0 <= i <= j <= |s| && r == s[i..j]
      && (forall k :: 0 <= k < i ==> IsSpace(s[k]))
      && (forall k :: j <= k < |s| ==> IsSpace(s[k]))
    ensures r == [] || (!IsSpace(r[0]) && !IsSpace(r[|r| - 1]))
  {
    var l := TrimLeft(s);
    var r := TrimRight(l);
    var i := |s| - |l|;
    var j := i + |r|;
    assert r == s[i..j];
    assert forall k :: 0 <= k < i ==> IsSpace(s[k]);
    assert forall k :: j <= k < |s| ==> IsSpace(s[k]) by {
      forall k | j <= k < |s| ensures IsSpace(s[k]) {
        assert s[k] == l[k - i];
      }
    }
    r
  }

  /** A string already free of surrounding whitespace is left as it is. */
  lemma TrimUnpadded(s: string)
    requires s == [] || (!IsSpace(s[0]) && !IsSpace(s[|s| - 1]))
    ensures Trim(s) == s
  {
  }

  // ---------------------------------------------------------------------------
  // Separator-joined token lines
  // ---------------------------------------------------------------------------

  /** The tokens written one after another with `sep` between neighbours:
      no separator before the first token or after the last. */
  function Join(tokens: seq<string>, sep: char): string
    requires |tokens| > 0
    decreases |tokens|
  {
    if |tokens| == 1 then tokens[0] else tokens[0] + [sep] + Join(tokens[1..], sep)
  }

  /** The fields of `s` between occurrences of `sep`: a reader of the line
      format, independent of `Join`. */
  function Split(s: string, sep: char): (fields: seq<string>)
    ensures |fields| > 0
    decreases |s|
  {
    if s == [] then [""]
    else
      var rest := Split(s[1..], sep);
      if s[0] == sep then [""] + rest
      else [[s[0]] + rest[0]] + rest[1..]
  }

  predicate Free(t: string, sep: char) {
    forall i :: 0 <= i < |t| ==> t[i] != sep
  }

  lemma {:induction false} SplitSingle(t: string, sep: char)
    requires Free(t, sep)
    ensures Split(t, sep) == [t]
    decreases |t|
  {
    if t != [] {
      SplitSingle(t[1..], sep);
      assert [t[0]] + t[1..] == t;
    }
  }

  lemma {:induction false} SplitAfterToken(t: string, u: string, sep: char)
    requires Free(t, sep)
    ensures Split(t + [sep] + u, sep) == [t] + Split(u, sep)
    decreases |t|
  {
    var s := t + [sep] + u;
    if t == [] {
      assert s[1..] == u;
    } else {
      assert s[1..] == t[1..] + [sep] + u;
      SplitAfterToken(t[1..], u, sep);
      assert [t[0]] + t[1..] == t;
    }
  }

  /** The fields of every token, token after token: what a reader of the
      line format sees of a token sequence whatever the tokens hold. */
  function SplitAll(tokens: seq<string>, sep: char): (fields: seq<string>)
    ensures |fields| >= |tokens|
    decreases |tokens|
  {
    if tokens == [] then [] else Split(tokens[0], sep) + SplitAll(tokens[1..], sep)
  }

  /** A separator splits a line into the fields before it and the fields
      after it. */
  lemma {:induction false} SplitSepAppend(t: string, u: string, sep: char)
    ensures Split(t + [sep] + u, sep) == Split(t, sep) + Split(u, sep)
    decreases |t|
  {
    var s := t + [sep] + u;
    if t == [] {
      assert s[1..] == u;
    } else {
      assert s[0] == t[0] && s[1..] == t[1..] + [sep] + u;
      SplitSepAppend(t[1..], u, sep);
      var head, tail := Split(t[1..], sep), Split(u, sep);
      if t[0] != sep {
        assert (head + tail)[0] == head[0];
        assert (head + tail)[1..] == head[1..] + tail;
      }
    }
  }

  /** Splitting a joined line gives the fields of each token in order: a
      token holding the separator comes back as several fields. */
  lemma {:induction false} SplitJoinAll(tokens: seq<string>, sep: char)
    requires |tokens| > 0
    ensures Split(Join(tokens, sep), sep) == SplitAll(tokens, sep)
    decreases |tokens|
  {
    if |tokens| == 1 {
      assert tokens[1..] == [];
    } else {
      SplitJoinAll(tokens[1..], sep);
      SplitSepAppend(tokens[0], Join(tokens[1..], sep), sep);
    }
  }

  /** Tokens free of the separator are their own fields. */
  lemma {:induction false} SplitAllFree(tokens: seq<string>, sep: char)
    ensures (forall i :: 0 <= i < |tokens| ==> Free(tokens[i], sep)) ==> SplitAll(tokens, sep) == tokens
    decreases |tokens|
  {
    if tokens != [] && forall i :: 0 <= i < |tokens| ==> Free(tokens[i], sep) {
      SplitSingle(tokens[0], sep);
      SplitAllFree(tokens[1..], sep);
      assert [tokens[0]] + tokens[1..] == tokens;
    }
  }

  /** Splitting a joined line gives back the tokens, provided no token holds
      the separator. */
  lemma {:induction false} SplitJoin(tokens: seq<string>, sep: char)
    requires |tokens| > 0
    requires forall i :: 0 <= i < |tokens| ==> Free(tokens[i], sep)
    ensures Split(Join(tokens, sep), sep) == tokens
    decreases |tokens|
  {
    if |tokens| == 1 {
      SplitSingle(tokens[0], sep);
    } else {
      SplitJoin(tokens[1..], sep);
      SplitAfterToken(tokens[0], Join(tokens[1..], sep), sep);
      assert [tokens[0]] + tokens[1..] == tokens;
    }
  }
}
