/** Python `str` operations the newsletter pipeline relies on, over `seq<char>`.
 *  A Dafny `char` is a Unicode scalar value, as a Python `str` element is a
 *  code point, so lengths and slices agree with Python's. */
module PyStr {

  /** `str.isspace()`, which is also what `\s` matches in a `str` regex: the
      characters of Unicode bidirectional class WS, B or S, or category Zs. */
  predicate IsSpace(c: char) {
    ('\t' <= c <= '\r') || ('\U{1C}' <= c <= '\U{1F}') || c == ' '
    || c == '\U{85}' || c == '\U{A0}' || c == '\U{1680}'
    || ('\U{2000}' <= c <= '\U{200A}') || c == '\U{2028}' || c == '\U{2029}'
    || c == '\U{202F}' || c == '\U{205F}' || c == '\U{3000}'
  }

  predicate AllSpace(s: string) {
    forall i :: 0 <= i < |s| ==> IsSpace(s[i])
  }

  /** `s.strip()`: `s` without its leading and trailing whitespace. */
  function Strip(s: string): (r: string)
    ensures |r| <= |s|
    decreases |s|
  {
    if |s| > 0 && IsSpace(s[0]) then Strip(s[1..])
    else if |s| > 0 && IsSpace(s[|s| - 1]) then Strip(s[..|s| - 1])
    else s
  }

  /** The stripped string neither starts nor ends with whitespace. */
  lemma {:induction false} StripEnds(s: string)
    ensures var r := Strip(s); r == [] || (!IsSpace(r[0]) && !IsSpace(r[|r| - 1]))
    decreases |s|
  {
    if |s| > 0 && IsSpace(s[0]) {
      StripEnds(s[1..]);
    } else if |s| > 0 && IsSpace(s[|s| - 1]) {
      StripEnds(s[..|s| - 1]);
    }
  }

  /** The stripped string is the slice `s[i..j]`, with only whitespace around it. */
  lemma {:induction false} StripSlice(s: string) returns (i: nat, j: nat)
    ensures i <= j <= |s| && Strip(s) == s[i..j] && AllSpace(s[..i]) && AllSpace(s[j..])
    decreases |s|
  {
    if |s| > 0 && IsSpace(s[0]) {
      var i', j' := StripSlice(s[1..]);
      StripSliceFront(s, i', j');
      i, j := i' + 1, j' + 1;
    } else if |s| > 0 && IsSpace(s[|s| - 1]) {
      i, j := StripSlice(s[..|s| - 1]);
      StripSliceBack(s, i, j);
    } else {
      i, j := 0, |s|;
      assert s[j..] == [];
    }
  }

  /** A leading space goes: the slice moves one to the right. */
  lemma StripSliceFront(s: string, i: nat, j: nat)
    requires |s| > 0 && IsSpace(s[0])
    requires i <= j <= |s| - 1 && Strip(s[1..]) == s[1..][i..j]
    requires AllSpace(s[1..][..i]) && AllSpace(s[1..][j..])
    ensures Strip(s) == s[i + 1..j + 1] && AllSpace(s[..i + 1]) && AllSpace(s[j + 1..])
  {
    assert s[1..][i..j] == s[i + 1..j + 1];
    var k := i + 1;
    assert forall m :: 0 <= m < k ==> s[..k][m] == if m == 0 then s[0] else s[1..][..i][m - 1];
    assert s[j + 1..] == s[1..][j..];
  }

  /** A trailing space goes: the slice stays, the space joins the tail. */
  lemma StripSliceBack(s: string, i: nat, j: nat)
    requires |s| > 0 && !IsSpace(s[0]) && IsSpace(s[|s| - 1])
    requires var t := s[..|s| - 1];
             i <= j <= |t| && Strip(t) == t[i..j] && AllSpace(t[..i]) && AllSpace(t[j..])
    ensures Strip(s) == s[i..j] && AllSpace(s[..i]) && AllSpace(s[j..])
  {
    var t := s[..|s| - 1];
    assert t[i..j] == s[i..j];
    assert s[..i] == t[..i];
    assert forall m :: 0 <= m < |s| - j ==> s[j..][m] == if m < |t| - j then t[j..][m] else s[|s| - 1];
  }

  /** Stripping a string that neither starts nor ends with whitespace changes nothing. */
  lemma StripUnchanged(s: string)
    requires s == [] || (!IsSpace(s[0]) && !IsSpace(s[|s| - 1]))
    ensures Strip(s) == s
  {
  }

  /** Index of the first occurrence of `c` in `s`. */
  function IndexOf(s: string, c: char): (k: nat)
    requires c in s
    ensures k < |s| && s[k] == c && c !in s[..k]
  {
    if s[0] == c then 0 else 1 + IndexOf(s[1..], c)
  }

  /** `s.split(d)` for a one-character separator `d`: the pieces between the
      occurrences of `d`, always at least one. */
  function Split(s: string, d: char): (parts: seq<string>)
    ensures |parts| >= 1
    decreases |s|
  {
    if d !in s then [s]
    else
      var k := IndexOf(s, d);
      [s[..k]] + Split(s[k + 1..], d)
  }

  /** No piece of a split holds the separator. */
  lemma {:induction false} SplitPieces(s: string, d: char)
    ensures forall k :: 0 <= k < |Split(s, d)| ==> d !in Split(s, d)[k]
    decreases |s|
  {
    if d in s {
      var k := IndexOf(s, d);
      SplitPieces(s[k + 1..], d);
    }
  }

  /** `sep.join(parts)`. */
  function Join(sep: string, parts: seq<string>): string
  {
    if |parts| == 0 then ""
    else if |parts| == 1 then parts[0]
    else parts[0] + sep + Join(sep, parts[1..])
  }

  /** Joining the pieces of a split with the separator gives back the string. */
  lemma {:induction false} JoinSplit(s: string, d: char)
    ensures Join([d], Split(s, d)) == s
    decreases |s|
  {
    if d in s {
      var k := IndexOf(s, d);
      var rest := s[k + 1..];
      var parts := Split(s, d);
      JoinSplit(rest, d);
      assert parts == [s[..k]] + Split(rest, d);
      assert parts[1..] == Split(rest, d);
      assert Join([d], parts) == s[..k] + [d] + rest;
      assert s == s[..k] + [d] + rest;
    }
  }

  /** Splitting a join of separator-free pieces gives back the pieces. */
  lemma {:induction false} SplitJoin(parts: seq<string>, d: char)
    requires |parts| >= 1
    requires forall k :: 0 <= k < |parts| ==> d !in parts[k]
    ensures Split(Join([d], parts), d) == parts
  {
    if |parts| > 1 {
      var s := Join([d], parts);
      var rest := Join([d], parts[1..]);
      assert s == parts[0] + [d] + rest;
      assert d in s by { assert s[|parts[0]|] == d; }
      var k := IndexOf(s, d);
      assert forall i :: 0 <= i < |parts[0]| ==> s[i] == parts[0][i];
      assert k <= |parts[0]| by {
        assert forall i :: 0 <= i < k ==> s[..k][i] == s[i];
      }
      assert s[..k] == parts[0];
      assert s[k + 1..] == rest;
      SplitJoin(parts[1..], d);
      assert parts == [parts[0]] + parts[1..];
    }
  }

  /** Appending one more piece to a join. */
  lemma {:induction false} JoinSnoc(sep: string, parts: seq<string>, x: string)
    ensures Join(sep, parts + [x]) == if parts == [] then x else Join(sep, parts) + sep + x
  {
    if |parts| > 1 {
      assert (parts + [x])[1..] == parts[1..] + [x];
      JoinSnoc(sep, parts[1..], x);
    } else if |parts| == 1 {
      assert (parts + [x])[1..] == [x];
    }
  }

  /** Joining a prefix of the pieces gives a prefix of the whole join. */
  lemma {:induction false} JoinPrefix(sep: string, parts: seq<string>, m: nat)
    requires m <= |parts|
    ensures Join(sep, parts[..m]) <= Join(sep, parts)
    ensures 0 < m < |parts| ==> Join(sep, parts[..m]) + sep <= Join(sep, parts)
  {
    if m > 0 && |parts| > 1 {
      if m == 1 {
        assert parts[..1] == [parts[0]];
      } else {
        JoinPrefix(sep, parts[1..], m - 1);
        assert parts[..m][1..] == parts[1..][..m - 1];
      }
    } else if m == |parts| {
      assert parts[..m] == parts;
    }
  }

  /** A property holds of every non-empty suffix exactly when it holds of
      the whole sequence and of every non-empty suffix of its tail. */
  lemma EverySuffix<T>(s: seq<T>, p: seq<T> -> bool)
    requires s != []
    ensures (forall i :: 0 <= i < |s| ==> p(s[i..])) <==>
              p(s) && forall i :: 0 <= i < |s| - 1 ==> p(s[1..][i..])
  {
    assert s[0..] == s;
    if forall i :: 0 <= i < |s| ==> p(s[i..]) {
      forall i | 0 <= i < |s| - 1 ensures p(s[1..][i..]) {
        assert s[1..][i..] == s[i + 1..];
      }
    }
    if p(s) && forall i :: 0 <= i < |s| - 1 ==> p(s[1..][i..]) {
      forall i | 1 <= i < |s| ensures p(s[i..]) {
        assert s[1..][i - 1..] == s[i..];
      }
    }
  }

  /** Concatenation is associative. */
  lemma AppendAssoc<T>(a: seq<T>, b: seq<T>, c: seq<T>)
    ensures a + (b + c) == (a + b) + c
  {
  }

  /** A prefix one longer is the prefix and the next element. */
  lemma PrefixSnoc<T>(s: seq<T>, n: nat)
    requires n < |s|
    ensures s[..n + 1] == s[..n] + [s[n]]
  {
  }

  /** `s[:n]` for `n >= 0`. */
  function Take(s: string, n: nat): (r: string)
    ensures r <= s
    ensures |r| == if n < |s| then n else |s|
  {
    if n < |s| then s[..n] else s
  }

  predicate IsDigit(c: char) {
    '0' <= c <= '9'
  }

  /** The number a string of decimal digits denotes. */
  function DecimalValue(r: string): nat
    requires forall i :: 0 <= i < |r| ==> IsDigit(r[i])
  {
    if r == [] then 0
    else
      var last := r[|r| - 1];
      assert IsDigit(last);
      10 * DecimalValue(r[..|r| - 1]) + (last as int - '0' as int)
  }

  /** `str(n)` for a natural number: decimal digits without leading zeros. */
  function NatToString(n: nat): (r: string)
    ensures |r| >= 1 && forall i :: 0 <= i < |r| ==> IsDigit(r[i])
    ensures r[0] == '0' ==> r == "0"
    ensures DecimalValue(r) == n
  {
    if n < 10 then ['0' + n as char]
    else
      var r := NatToString(n / 10) + ['0' + (n % 10) as char];
      assert r[..|r| - 1] == NatToString(n / 10);
      r
  }
}
