/** The text cleanup that `summarize_text` applies before calling any
 *  summariser (main.py:156-205): a fixed chain of rewrites, each one a
 *  function here, run in order by the method `CleanText`. The comments
 *  below number the rewrites in the order of that code:
 *    step 1  NFKD normalisation                    main.py:162
 *    step 2  the five header deletions             main.py:165-169
 *    step 3  URLs, then e-mail addresses           main.py:172-173
 *    step 4  the three footer deletions            main.py:176-178
 *    step 5  disallowed characters become spaces   main.py:181
 *    step 6  whitespace runs collapsed, stripped   main.py:182-183
 *    step 7  short fragments dropped               main.py:186-192
 *    step 8  truncation at a sentence boundary     main.py:194-205 */
module Cleanup {
  import opened PyStr

  const MinFragment: nat := 10
  const MaxLength: nat := 4000

  /** The Unicode tables the cleanup consults: NFKD normalisation and the
      alphanumeric property behind `\w`. Their data is not part of this model,
      so they are given as functions. */
  datatype UnicodeDb = UnicodeDb(nfkd: string -> string, isAlnum: char -> bool)

  predicate IsAsciiLetter(c: char) {
    'a' <= c <= 'z' || 'A' <= c <= 'Z'
  }

  predicate IsAsciiAlnum(c: char) {
    IsAsciiLetter(c) || '0' <= c <= '9'
  }

  /** Tables that agree with Python's on ASCII, where `\w` is `[A-Za-z0-9_]`. */
  predicate AsciiFaithful(u: UnicodeDb) {
    forall c: char :: c < '\U{80}' ==> (u.isAlnum(c) <==> IsAsciiAlnum(c))
  }

  // ---------------------------------------------------------------------------
  // Steps 2 and 4: case-insensitive key words

  /** Text character `c` matches pattern character `p` (a lower-case ASCII
      letter or a non-letter) under `re.IGNORECASE` for a `str` pattern:
      besides the two ASCII cases, `i` also matches U+0130 and U+0131, `s`
      matches U+017F and `k` matches U+212A. */
  predicate SameIgnoringCase(c: char, p: char) {
    c == p
    || ('a' <= p <= 'z' && c as int == p as int - 32)
    || (p == 'i' && (c == '\U{130}' || c == '\U{131}'))
    || (p == 's' && c == '\U{17F}')
    || (p == 'k' && c == '\U{212A}')
  }

  /** `s` begins with `key`, character by character ignoring case. */
  predicate StartsWithIgnoringCase(s: string, key: string)
    ensures StartsWithIgnoringCase(s, key) ==> |key| <= |s|
    decreases |key|
  {
    |key| <= |s| && (key == [] || (SameIgnoringCase(s[0], key[0]) && StartsWithIgnoringCase(s[1..], key[1..])))
  }

  lemma {:induction false} MatchedAt(s: string, key: string, i: nat)
    requires StartsWithIgnoringCase(s, key) && i < |key|
    ensures SameIgnoringCase(s[i], key[i])
    decreases i
  {
    if i > 0 {
      MatchedAt(s[1..], key[1..], i - 1);
    }
  }

  /** Index of the first newline at or after `from`, or `|s|` when there is none. */
  function LineEnd(s: string, from: nat): (e: nat)
    requires from <= |s|
    ensures from <= e <= |s| && '\n' !in s[from..e]
    ensures e < |s| ==> s[e] == '\n'
    decreases |s| - from
  {
    if from == |s| || s[from] == '\n' then from else LineEnd(s, from + 1)
  }

  /** Index just past the last newline of `s`, 0 when there is none. */
  function LastLineStart(s: string): (k: nat)
    ensures k <= |s| && '\n' !in s[k..]
    ensures k > 0 ==> s[k - 1] == '\n'
  {
    if s == [] || s[|s| - 1] == '\n' then |s| else LastLineStart(s[..|s| - 1])
  }

  /** The final line of `s`: what follows its last newline. */
  function LastLine(s: string): string {
    s[LastLineStart(s)..]
  }

  /** Cutting `s` anywhere up to its last line leaves the last line as it was. */
  lemma LastLineOfSuffix(s: string, j: nat)
    requires j <= LastLineStart(s)
    ensures LastLine(s[j..]) == LastLine(s)
  {
    var k := LastLineStart(s);
    var t := s[j..];
    var m := LastLineStart(t);
    assert forall i :: j + m <= i < |s| ==> s[i] == t[i - j];
    assert m + j == k;
  }

  predicate EndsWith(s: string, t: string) {
    |t| <= |s| && s[|s| - |t|..] == t
  }

  /** `re.sub(key + r'.*?\n', '', s, flags=re.IGNORECASE)` for a header key
      such as `from:`: each occurrence of the key is deleted with the rest of
      its line and the newline. */
  function DropHeaderField(s: string, key: string): (r: string)
    requires key != []
    ensures |r| <= |s|
    decreases |s|
  {
    if s == [] then []
    else if StartsWithIgnoringCase(s, key) && LineEnd(s, |key|) < |s| then
      DropHeaderField(s[LineEnd(s, |key|) + 1..], key)
    else [s[0]] + DropHeaderField(s[1..], key)
  }

  /** Text starting with `key` itself starts with it ignoring case. */
  lemma {:induction false} StartsWithItself(s: string, key: string)
    requires key <= s
    ensures StartsWithIgnoringCase(s, key)
    decreases |key|
  {
    if key != [] {
      assert key[1..] <= s[1..] by {
        assert forall i :: 0 <= i < |key| - 1 ==> key[1..][i] == s[1..][i];
      }
      StartsWithItself(s[1..], key[1..]);
    }
  }

  /** `LineEnd` finds the first newline from `from` on. */
  lemma {:induction false} LineEndAt(s: string, from: nat, e: nat)
    requires from <= e < |s| && s[e] == '\n'
    requires forall i :: from <= i < e ==> s[i] != '\n'
    ensures LineEnd(s, from) == e
    decreases e - from
  {
    if from < e {
      LineEndAt(s, from + 1, e);
    }
  }

  /** A header line, the key, its value and the newline, at the start of the
      text goes entirely, and the deletions go on after it. */
  lemma DropHeaderFieldRemovesLine(key: string, value: string, rest: string)
    requires key != [] && '\n' !in value
    ensures DropHeaderField(key + value + "\n" + rest, key) == DropHeaderField(rest, key)
  {
    var s := key + value + "\n" + rest;
    var e := |key| + |value|;
    assert key <= s;
    StartsWithItself(s, key);
    assert s[e] == '\n';
    forall i | |key| <= i < e ensures s[i] != '\n' {
      assert s[i] == value[i - |key|];
    }
    LineEndAt(s, |key|, e);
    assert s[e + 1..] == rest;
    DropHeaderFieldLine(s, key);
  }

  /** The header pattern is not anchored to the start of a line, but it needs
      a newline to end on: text without a newline is left alone. */
  lemma {:induction false} DropHeaderFieldNeedsNewline(s: string, key: string)
    requires key != [] && '\n' !in s
    ensures DropHeaderField(s, key) == s
    decreases |s|
  {
    if s != [] {
      NoHeaderLineWithoutNewline(s, key);
      DropHeaderFieldChar(s, key);
      DropHeaderFieldNeedsNewline(s[1..], key);
      assert s == [s[0]] + s[1..];
    }
  }

  lemma NoHeaderLineWithoutNewline(s: string, key: string)
    requires key != [] && s != [] && '\n' !in s
    ensures !(StartsWithIgnoringCase(s, key) && LineEnd(s, |key|) < |s|)
    ensures '\n' !in s[1..]
  {
  }

  /** The final line of any text always survives at the end of the result. */
  lemma {:induction false} DropHeaderFieldKeepsLastLine(s: string, key: string)
    requires key != []
    ensures EndsWith(DropHeaderField(s, key), LastLine(s))
    decreases |s|
  {
    if s == [] {
    } else if StartsWithIgnoringCase(s, key) && LineEnd(s, |key|) < |s| {
      var e := LineEnd(s, |key|);
      DropHeaderFieldKeepsLastLine(s[e + 1..], key);
      DroppedLineKeepsLastLine(s, key, e);
    } else if LastLineStart(s) > 0 {
      DropHeaderFieldKeepsLastLine(s[1..], key);
      KeptCharKeepsLastLine(s, key);
    } else {
      DropHeaderFieldNeedsNewline(s, key);
    }
  }

  lemma DropHeaderFieldLine(s: string, key: string)
    requires key != [] && StartsWithIgnoringCase(s, key) && LineEnd(s, |key|) < |s|
    ensures DropHeaderField(s, key) == DropHeaderField(s[LineEnd(s, |key|) + 1..], key)
  {
  }

  lemma DropHeaderFieldChar(s: string, key: string)
    requires key != [] && s != [] && !(StartsWithIgnoringCase(s, key) && LineEnd(s, |key|) < |s|)
    ensures DropHeaderField(s, key) == [s[0]] + DropHeaderField(s[1..], key)
  {
  }

  /** The step of `DropHeaderFieldKeepsLastLine` where a header line goes. */
  lemma DroppedLineKeepsLastLine(s: string, key: string, e: nat)
    requires key != [] && StartsWithIgnoringCase(s, key)
    requires |key| <= e == LineEnd(s, |key|) < |s|
    requires EndsWith(DropHeaderField(s[e + 1..], key), LastLine(s[e + 1..]))
    ensures EndsWith(DropHeaderField(s, key), LastLine(s))
  {
    DropHeaderFieldLine(s, key);
    var k := LastLineStart(s);
    assert e < k by {
      assert s[e] == '\n';
    }
    LastLineOfSuffix(s, e + 1);
  }

  /** The step of `DropHeaderFieldKeepsLastLine` where the first character
      stays, before the last line. */
  lemma KeptCharKeepsLastLine(s: string, key: string)
    requires key != [] && s != [] && LastLineStart(s) > 0
    requires !(StartsWithIgnoringCase(s, key) && LineEnd(s, |key|) < |s|)
    requires EndsWith(DropHeaderField(s[1..], key), LastLine(s[1..]))
    ensures EndsWith(DropHeaderField(s, key), LastLine(s))
  {
    DropHeaderFieldChar(s, key);
    LastLineOfSuffix(s, 1);
    EndsWithCons(s[0], DropHeaderField(s[1..], key), LastLine(s));
  }

  lemma EndsWithCons(c: char, s: string, t: string)
    requires EndsWith(s, t)
    ensures EndsWith([c] + s, t)
  {
    assert ([c] + s)[|[c] + s| - |t|..] == s[|s| - |t|..];
  }

  /** `re.sub(key + r'.*?$', '', s, flags=re.IGNORECASE | re.MULTILINE)` for a
      key such as `unsubscribe`: each occurrence of the key is deleted up to
      the end of its line, the newline itself staying. */
  function DropToLineEnd(s: string, key: string): (r: string)
    requires key != []
    ensures |r| <= |s|
    decreases |s|
  {
    if s == [] then []
    else if StartsWithIgnoringCase(s, key) then DropToLineEnd(s[LineEnd(s, |key|)..], key)
    else [s[0]] + DropToLineEnd(s[1..], key)
  }

  /** A footer key at the start of the text is deleted with the rest of its
      line; the newline ending that line stays. */
  lemma DropToLineEndRemovesRest(key: string, value: string, rest: string)
    requires key != [] && '\n' !in value
    ensures DropToLineEnd(key + value + "\n" + rest, key) == DropToLineEnd("\n" + rest, key)
  {
    var s := key + value + "\n" + rest;
    var e := |key| + |value|;
    assert key <= s;
    StartsWithItself(s, key);
    assert s[e] == '\n';
    forall i | |key| <= i < e ensures s[i] != '\n' {
      assert s[i] == value[i - |key|];
    }
    LineEndAt(s, |key|, e);
    assert s[e..] == "\n" + rest;
  }

  /** The footer deletions never join two lines: the result has as many
      newlines as the input. */
  lemma {:induction false} DropToLineEndKeepsLines(s: string, key: string)
    requires key != [] && '\n' !in key
    ensures multiset(DropToLineEnd(s, key))['\n'] == multiset(s)['\n']
    decreases |s|
  {
    if s == [] {
    } else if StartsWithIgnoringCase(s, key) {
      var e := LineEnd(s, |key|);
      assert s == s[..e] + s[e..];
      forall i | 0 <= i < |key| ensures s[i] != '\n' {
        MatchedAt(s, key, i);
        assert key[i] != '\n';
      }
      assert '\n' !in s[..e];
      DropToLineEndKeepsLines(s[e..], key);
    } else {
      assert s == [s[0]] + s[1..];
      DropToLineEndKeepsLines(s[1..], key);
    }
  }

  // ---------------------------------------------------------------------------
  // Step 3: URLs and e-mail addresses

  /** The character classes the URL and address patterns are built from. */
  datatype CharClass =
    | UrlChars     // [a-zA-Z] | [0-9] | [$-_@.&+] | [!*\(\),]
    | LocalChars   // [a-zA-Z0-9._%+-]
    | DomainChars  // [a-zA-Z0-9.-]
    | Letters      // [a-zA-Z]

  /** `[$-_@.&+]` is the range `$`..`_` (which holds `%`, `/`, `:`, `@`, `.`,
      the digits and the upper-case letters) plus `@ . & +`; the `%XX`
      alternative of the URL pattern adds nothing, `%` being in that range. */
  predicate InClass(c: char, k: CharClass) {
    match k
    case UrlChars =>
      IsAsciiLetter(c) || '0' <= c <= '9' || '$' <= c <= '_' || c == '@' || c == '.' || c == '&'
      || c == '+' || c == '!' || c == '*' || c == '\\' || c == '(' || c == ')' || c == ','
    case LocalChars => IsAsciiAlnum(c) || c == '.' || c == '_' || c == '%' || c == '+' || c == '-'
    case DomainChars => IsAsciiAlnum(c) || c == '.' || c == '-'
    case Letters => IsAsciiLetter(c)
  }

  /** Length of the longest prefix of `s` drawn from class `k`. */
  function Run(s: string, k: CharClass): (n: nat)
    ensures n <= |s| && forall i :: 0 <= i < n ==> InClass(s[i], k)
    ensures n < |s| ==> !InClass(s[n], k)
  {
    if |s| > 0 && InClass(s[0], k) then 1 + Run(s[1..], k) else 0
  }

  /** A prefix drawn from class `k` lies within the run. */
  lemma RunCovers(s: string, k: CharClass, m: nat)
    requires m <= |s| && forall i :: 0 <= i < m ==> InClass(s[i], k)
    ensures m <= Run(s, k)
  {
  }

  /** Length of the match of `http[s]?://(...)+` at the start of `s`, 0 when
      there is none. The scheme and `://` are URL characters themselves and
      the repetition is greedy, so a match is the whole leading run of URL
      characters, provided it goes past the `://`. */
  function UrlAt(s: string): (n: nat)
    ensures n == 0 || n == Run(s, UrlChars)
  {
    var n := Run(s, UrlChars);
    if n > 8 && s[..8] == "https://" then n
    else if n > 7 && s[..7] == "http://" then n
    else 0
  }

  /** `UrlAt` finds exactly the matches of the pattern: the scheme, `://` and
      at least one URL character. */
  lemma UrlAtMatchesPattern(s: string)
    ensures UrlAt(s) > 0 <==>
              (|s| > 8 && s[..8] == "https://" && InClass(s[8], UrlChars))
              || (|s| > 7 && s[..7] == "http://" && InClass(s[7], UrlChars))
  {
    if |s| > 8 && s[..8] == "https://" && InClass(s[8], UrlChars) {
      assert forall i :: 0 <= i < 9 ==> InClass(s[i], UrlChars) by {
        assert forall i :: 0 <= i < 8 ==> s[i] == s[..8][i];
      }
      RunCovers(s, UrlChars, 9);
    }
    if |s| > 7 && s[..7] == "http://" && InClass(s[7], UrlChars) {
      assert forall i :: 0 <= i < 8 ==> InClass(s[i], UrlChars) by {
        assert forall i :: 0 <= i < 7 ==> s[i] == s[..7][i];
      }
      RunCovers(s, UrlChars, 8);
    }
  }

  predicate NoUrl(s: string) {
    forall i :: 0 <= i <= |s| ==> UrlAt(s[i..]) == 0
  }

  /** `re.sub(URL pattern, '', s)`: every URL, leftmost first, is deleted. */
  function DropUrls(s: string): (r: string)
    ensures |r| <= |s|
    decreases |s|
  {
    if s == [] then []
    else if UrlAt(s) > 0 then DropUrls(s[UrlAt(s)..])
    else [s[0]] + DropUrls(s[1..])
  }

  /** The leading run of URL characters of `t` is a prefix of that of `s`. */
  predicate RunWithin(t: string, s: string) {
    t[..Run(t, UrlChars)] <= s[..Run(s, UrlChars)]
  }

  /** Whether a URL starts a string depends only on its leading run of URL
      characters, so a string whose run is a prefix of the run of a URL-free
      string is URL-free at its start too. */
  lemma UrlAtFollowsRun(t: string, s: string)
    requires RunWithin(t, s)
    requires UrlAt(s) == 0
    ensures UrlAt(t) == 0
  {
    var nt, ns := Run(t, UrlChars), Run(s, UrlChars);
    if nt > 7 {
      assert t[..7] == t[..nt][..7] == s[..ns][..7] == s[..7];
    }
    if nt > 8 {
      assert t[..8] == t[..nt][..8] == s[..ns][..8] == s[..8];
    }
  }

  /** Putting the same character in front of both strings keeps `RunWithin`. */
  lemma RunWithinCons(c: char, t: string, s: string)
    requires RunWithin(t, s)
    ensures RunWithin([c] + t, [c] + s)
  {
    var t', s' := [c] + t, [c] + s;
    if InClass(c, UrlChars) {
      assert t'[1..] == t && s'[1..] == s;
      assert t'[..Run(t', UrlChars)] == [c] + t[..Run(t, UrlChars)];
      assert s'[..Run(s', UrlChars)] == [c] + s[..Run(s, UrlChars)];
    }
  }

  /** After the URL pass no URL is left anywhere in the text, even where a
      deletion joins what stood before and after it: a URL ends where its run
      of URL characters ends, so the next character cannot continue one. */
  lemma {:induction false} DropUrlsLeavesNoUrl(s: string)
    ensures NoUrl(DropUrls(s))
    ensures RunWithin(DropUrls(s), s)
    decreases |s|
  {
    if s == [] {
      return;
    }
    var r := DropUrls(s);
    if UrlAt(s) > 0 {
      var n := UrlAt(s);
      var rest := s[n..];
      DropUrlsLeavesNoUrl(rest);
      assert r == DropUrls(rest);
      assert Run(rest, UrlChars) == 0 by {
        if n < |s| { assert rest[0] == s[n]; }
      }
      assert Run(r, UrlChars) == 0;
    } else {
      var tail := s[1..];
      DropUrlsLeavesNoUrl(tail);
      var r' := DropUrls(tail);
      assert r == [s[0]] + r';
      assert s == [s[0]] + tail;
      RunWithinCons(s[0], r', tail);
      UrlAtFollowsRun(r, s);
      forall i | 0 <= i <= |r| ensures UrlAt(r[i..]) == 0 {
        if i > 0 { assert r[i..] == r'[i - 1..]; }
      }
    }
  }

  /** `d[k]` is a dot after a non-empty domain part, followed by two ASCII
      letters: where `\.[a-zA-Z]{2,}` can start in the domain `d`. */
  predicate TopLevelDot(d: string, k: int) {
    1 <= k && k + 2 < |d| && d[k] == '.' && IsAsciiLetter(d[k + 1]) && IsAsciiLetter(d[k + 2])
  }

  /** The largest `k` in `1..hi` with `d[k] == '.'` followed by two ASCII
      letters, or -1 when there is none: the greedy domain part backs off to
      the last such dot. */
  function LastTopLevelDot(d: string, hi: int): (k: int)
    requires hi + 2 < |d|
    ensures k == -1 || (k <= hi && TopLevelDot(d, k))
    ensures forall j :: k < j <= hi ==> !TopLevelDot(d, j)
    decreases hi
  {
    if hi < 1 then -1
    else if d[hi] == '.' && IsAsciiLetter(d[hi + 1]) && IsAsciiLetter(d[hi + 2]) then hi
    else LastTopLevelDot(d, hi - 1)
  }

  /** Length of the match of `[a-zA-Z0-9.-]+\.[a-zA-Z]{2,}` at the start of
      `d`, 0 when there is none. */
  function DomainAt(d: string): (n: nat)
    ensures n <= |d|
  {
    var k := LastTopLevelDot(d, Run(d, DomainChars) - 3);
    if k < 1 then 0 else k + 1 + Run(d[k + 1..], Letters)
  }

  /** Length of the match of `[a-zA-Z0-9._%+-]+@[a-zA-Z0-9.-]+\.[a-zA-Z]{2,}`
      at the start of `s`, 0 when there is none. */
  function EmailAt(s: string): (n: nat)
    ensures n > 0 ==> n <= |s| && '@' in s
  {
    var l := Run(s, LocalChars);
    if l == 0 || l == |s| || s[l] != '@' then 0
    else
      var m := DomainAt(s[l + 1..]);
      if m == 0 then 0 else l + 1 + m
  }

  /** An address in the sense of the pattern starts `s`: a non-empty local
      part `s[..l]`, an `@`, then a non-empty domain part `d[..k]` and the
      dot at `d[k]` with two ASCII letters after it, where `d` is what
      follows the `@`. */
  predicate AddressAt(s: string, l: int, k: int) {
    1 <= l < |s| && s[l] == '@' && (forall i :: 0 <= i < l ==> InClass(s[i], LocalChars))
    && var d := s[l + 1..];
       TopLevelDot(d, k) && forall i :: 0 <= i < k ==> InClass(d[i], DomainChars)
  }

  /** An address starts `s` exactly when `EmailAt` finds one; every such
      address is at most as long as the match (the domain part is greedy),
      and the match runs on through all the letters after its dot. */
  lemma EmailAtMatchesPattern(s: string)
    ensures EmailAt(s) > 0 <==> exists l, k :: AddressAt(s, l, k)
    ensures forall l, k :: AddressAt(s, l, k) ==> l + k + 4 <= EmailAt(s)
    ensures EmailAt(s) > 0 ==>
              exists l, k :: AddressAt(s, l, k) && EmailAt(s) == l + 1 + k + 1 + Run(s[l + k + 2..], Letters)
  {
    forall l, k | AddressAt(s, l, k) ensures l + k + 4 <= EmailAt(s) {
      EmailCandidateWithinMatch(s, l, k);
    }
    if EmailAt(s) > 0 {
      var l, k := EmailMatchIsAddress(s);
    }
  }

  /** A match found by `EmailAt` is an address followed by the rest of the
      letters after its dot. */
  lemma EmailMatchIsAddress(s: string) returns (l: int, k: int)
    requires EmailAt(s) > 0
    ensures AddressAt(s, l, k) && EmailAt(s) == l + 1 + k + 1 + Run(s[l + k + 2..], Letters)
  {
    var d;
    l, d := EmailAtParts(s);
    k := DomainAtParts(d);
    assert s[l + k + 2..] == d[k + 1..];
  }

  /** The local part and the domain match of a match `EmailAt` finds. */
  lemma EmailAtParts(s: string) returns (l: nat, d: string)
    requires EmailAt(s) > 0
    ensures l == Run(s, LocalChars) && 0 < l < |s| && s[l] == '@' && d == s[l + 1..]
    ensures DomainAt(d) > 0 && EmailAt(s) == l + 1 + DomainAt(d)
  {
    l := Run(s, LocalChars);
    d := s[l + 1..];
  }

  /** The last top-level dot of a domain match. */
  lemma DomainAtParts(d: string) returns (top: int)
    requires DomainAt(d) > 0
    ensures top <= Run(d, DomainChars) - 3 && TopLevelDot(d, top)
    ensures DomainAt(d) == top + 1 + Run(d[top + 1..], Letters)
  {
    top := LastTopLevelDot(d, Run(d, DomainChars) - 3);
  }

  /** Any address at the start of `s` has the local part `EmailAt` takes and
      ends no later than the match. */
  lemma EmailCandidateWithinMatch(s: string, l: int, k: int)
    requires AddressAt(s, l, k)
    ensures l == Run(s, LocalChars) && l + k + 4 <= EmailAt(s)
  {
    RunCovers(s, LocalChars, l);
    assert !InClass(s[l], LocalChars);
    var d := s[l + 1..];
    DomainWithinMatch(d, k);
    EmailAtFound(s, l, d);
  }

  /** A candidate dot `k` of the domain `d` lies at or before the dot
      `DomainAt` settles on, which has two letters after it. */
  lemma DomainWithinMatch(d: string, k: int)
    requires TopLevelDot(d, k) && forall i :: 0 <= i < k ==> InClass(d[i], DomainChars)
    ensures k + 3 <= DomainAt(d)
  {
    assert InClass(d[k], DomainChars) && InClass(d[k + 1], DomainChars) && InClass(d[k + 2], DomainChars);
    RunCovers(d, DomainChars, k + 3);
    var top := LastTopLevelDot(d, Run(d, DomainChars) - 3);
    var tld := d[top + 1..];
    assert tld[0] == d[top + 1] && tld[1] == d[top + 2];
    RunAtLeastTwo(tld, Letters);
  }

  /** `EmailAt` once its local part is known to end at an `@`. */
  lemma EmailAtFound(s: string, l: nat, d: string)
    requires l == Run(s, LocalChars) && 0 < l < |s| && s[l] == '@' && d == s[l + 1..]
    ensures EmailAt(s) == if DomainAt(d) == 0 then 0 else l + 1 + DomainAt(d)
  {
  }

  lemma RunAtLeastTwo(t: string, k: CharClass)
    requires |t| >= 2 && InClass(t[0], k) && InClass(t[1], k)
    ensures Run(t, k) >= 2
  {
    assert t[1..][0] == t[1];
  }

  /** `re.sub(address pattern, '', s)`: every e-mail address, leftmost first,
      is deleted. */
  function DropEmails(s: string): (r: string)
    ensures |r| <= |s|
    decreases |s|
  {
    if s == [] then []
    else if EmailAt(s) > 0 then DropEmails(s[EmailAt(s)..])
    else [s[0]] + DropEmails(s[1..])
  }

  /** Address removal leaves a text unchanged exactly when no address starts
      anywhere in it. */
  lemma {:induction false} DropEmailsUnchanged(s: string)
    ensures DropEmails(s) == s <==> forall i :: 0 <= i < |s| ==> EmailAt(s[i..]) == 0
    decreases |s|
  {
    if s != [] {
      if EmailAt(s) > 0 {
        assert s[0..] == s;
      } else {
        DropEmailsUnchanged(s[1..]);
        DropEmailsKeepsFirst(s);
        EverySuffix(s, t => EmailAt(t) == 0);
      }
    }
  }

  /** Where no address starts, the first character is kept and removal goes
      on with the rest. */
  lemma DropEmailsKeepsFirst(s: string)
    requires s != [] && EmailAt(s) == 0
    ensures DropEmails(s) == s <==> DropEmails(s[1..]) == s[1..]
  {
    assert DropEmails(s) == [s[0]] + DropEmails(s[1..]);
    assert s == [s[0]] + s[1..];
  }

  /** Every address holds an `@`, so text without one is left alone. */
  lemma {:induction false} DropEmailsNeedsAt(s: string)
    requires '@' !in s
    ensures DropEmails(s) == s
    decreases |s|
  {
    if s != [] {
      var tail := s[1..];
      assert s == [s[0]] + tail;
      assert '@' !in tail;
      DropEmailsNeedsAt(tail);
      assert EmailAt(s) == 0;
      assert DropEmails(s) == [s[0]] + DropEmails(tail);
    }
  }

  // ---------------------------------------------------------------------------
  // Steps 5 and 6: character filter and whitespace

  const Punctuation: string := ".,!?:;-()'\""

  predicate IsWord(u: UnicodeDb, c: char) {
    u.isAlnum(c) || c == '_'
  }

  /** The characters step 5 keeps: `[\w\s.,!?:;\-()'"]`. */
  predicate Kept(u: UnicodeDb, c: char) {
    IsWord(u, c) || IsSpace(c) || c in Punctuation
  }

  /** `re.sub(r'[^\w\s.,!?:;\-()\'"]', ' ', s)`. */
  function ReplaceDisallowed(u: UnicodeDb, s: string): (r: string)
    ensures |r| == |s|
    ensures forall i :: 0 <= i < |r| ==> Kept(u, r[i])
    ensures forall i :: 0 <= i < |s| ==> r[i] == s[i] || (r[i] == ' ' && !Kept(u, s[i]))
  {
    seq(|s|, i requires 0 <= i < |s| => if Kept(u, s[i]) then s[i] else ' ')
  }

  /** `s` with its whitespace removed. */
  function NonSpace(s: string): string {
    if s == [] then [] else (if IsSpace(s[0]) then [] else [s[0]]) + NonSpace(s[1..])
  }

  predicate NoDoubleSpace(s: string) {
    forall i :: 0 <= i < |s| - 1 ==> !(s[i] == ' ' && s[i + 1] == ' ')
  }

  /** `re.sub(r'\s+', ' ', s)`: every run of whitespace becomes one space. */
  function CollapseWhitespace(s: string): (r: string)
    ensures NonSpace(r) == NonSpace(s)
    ensures forall i :: 0 <= i < |r| ==> (IsSpace(r[i]) ==> r[i] == ' ')
    ensures NoDoubleSpace(r)
    ensures forall i :: 0 <= i < |r| ==> r[i] == ' ' || r[i] in s
    ensures |s| > 0 ==> |r| > 0 && r[0] == (if IsSpace(s[0]) then ' ' else s[0])
    decreases |s|
  {
    if s == [] then []
    else if IsSpace(s[0]) then
      if |s| > 1 && IsSpace(s[1]) then CollapseWhitespace(s[1..]) else " " + CollapseWhitespace(s[1..])
    else [s[0]] + CollapseWhitespace(s[1..])
  }

  /** Text without whitespace passes through the collapse unchanged. */
  lemma {:induction false} CollapseNoSpace(s: string)
    requires forall i :: 0 <= i < |s| ==> !IsSpace(s[i])
    ensures CollapseWhitespace(s) == s
    decreases |s|
  {
    if s != [] {
      CollapseNoSpace(s[1..]);
    }
  }

  /** A non-empty whitespace run followed by text that does not start with
      whitespace collapses to one space in front of that text. */
  lemma {:induction false} CollapseRun(w: string, b: string)
    requires |w| > 0 && AllSpace(w)
    requires b == [] || !IsSpace(b[0])
    ensures CollapseWhitespace(w + b) == " " + CollapseWhitespace(b)
    decreases |w|
  {
    var s := w + b;
    assert s[0] == w[0];
    if |w| == 1 {
      assert s[1..] == b;
    } else {
      assert s[1] == w[1];
      assert s[1..] == w[1..] + b;
      CollapseRun(w[1..], b);
    }
  }

  /** The collapse works piecewise across a cut made just after a
      non-whitespace character: what lies before the cut cannot merge with
      what follows it. */
  lemma {:induction false} CollapseAppend(a: string, t: string)
    requires a == [] || !IsSpace(a[|a| - 1])
    ensures CollapseWhitespace(a + t) == CollapseWhitespace(a) + CollapseWhitespace(t)
    decreases |a|
  {
    if a == [] {
      assert a + t == t;
    } else {
      var s := a + t;
      assert s[0] == a[0];
      assert s[1..] == a[1..] + t;
      if IsSpace(a[0]) {
        assert |a| > 1;
        assert s[1] == a[1];
      }
      var lead := CollapseStep(a);
      var lead' := CollapseStep(s);
      assert lead' == lead;
      CollapseAppend(a[1..], t);
      AppendAssoc(lead, CollapseWhitespace(a[1..]), CollapseWhitespace(t));
    }
  }

  /** One step of the collapse: what the first character contributes in
      front of the collapse of the rest. */
  lemma CollapseStep(s: string) returns (lead: string)
    requires |s| > 0
    ensures lead == if !IsSpace(s[0]) then [s[0]] else if |s| > 1 && IsSpace(s[1]) then [] else " "
    ensures CollapseWhitespace(s) == lead + CollapseWhitespace(s[1..])
  {
    lead := if !IsSpace(s[0]) then [s[0]] else if |s| > 1 && IsSpace(s[1]) then [] else " ";
    if lead == [] {
      assert lead + CollapseWhitespace(s[1..]) == CollapseWhitespace(s[1..]);
    }
  }

  /** Each whitespace run between two words becomes exactly one space, and
      the words on either side are collapsed on their own. */
  lemma CollapseWhitespaceRuns(a: string, w: string, b: string)
    requires a == [] || !IsSpace(a[|a| - 1])
    requires |w| > 0 && AllSpace(w)
    requires b == [] || !IsSpace(b[0])
    ensures CollapseWhitespace(a + w + b) == CollapseWhitespace(a) + " " + CollapseWhitespace(b)
  {
    AppendAssoc(a, w, b);
    CollapseAppend(a, w + b);
    CollapseRun(w, b);
    AppendAssoc(CollapseWhitespace(a), " ", CollapseWhitespace(b));
  }

  // ---------------------------------------------------------------------------
  // The shape of cleaned text

  /** A character cleaned text may hold: a space, or a non-whitespace word
      character or listed punctuation mark. */
  predicate CleanChar(u: UnicodeDb, c: char) {
    c == ' ' || (!IsSpace(c) && (IsWord(u, c) || c in Punctuation))
  }

  predicate Clean(u: UnicodeDb, s: string) {
    (forall i :: 0 <= i < |s| ==> CleanChar(u, s[i])) && NoDoubleSpace(s)
  }

  /** Clean, and neither starting nor ending with a space. */
  predicate Tidy(u: UnicodeDb, s: string) {
    Clean(u, s) && (s == [] || (s[0] != ' ' && s[|s| - 1] != ' '))
  }

  lemma CleanSlice(u: UnicodeDb, s: string, i: nat, j: nat)
    requires Clean(u, s) && i <= j <= |s|
    ensures Clean(u, s[i..j])
  {
    assert forall k :: 0 <= k < j - i ==> s[i..j][k] == s[i + k];
  }

  lemma CleanConcat(u: UnicodeDb, a: string, b: string)
    requires Clean(u, a) && Clean(u, b)
    requires a == [] || b == [] || a[|a| - 1] != ' ' || b[0] != ' '
    ensures Clean(u, a + b)
  {
    var s := a + b;
    forall i | 0 <= i < |s| ensures CleanChar(u, s[i]) {
      if i >= |a| { assert s[i] == b[i - |a|]; }
    }
    forall i | 0 <= i < |s| - 1 ensures !(s[i] == ' ' && s[i + 1] == ' ') {
      if i + 1 < |a| {
        assert s[i] == a[i] && s[i + 1] == a[i + 1];
      } else if i >= |a| {
        assert s[i] == b[i - |a|] && s[i + 1] == b[i + 1 - |a|];
      }
    }
  }

  /** Steps 5 and 6 leave tidy text, whatever steps 1 to 4 did. */
  lemma {:induction false} ScrubbedIsTidy(u: UnicodeDb, s: string)
    ensures Tidy(u, Normalise(u, s))
  {
    var t := ReplaceDisallowed(u, s);
    var c := CollapseWhitespace(t);
    forall i | 0 <= i < |c| ensures CleanChar(u, c[i]) {
      if c[i] != ' ' {
        assert c[i] in t;
        assert !IsSpace(c[i]);
      }
    }
    assert Clean(u, c);
    var i, j := StripSlice(c);
    CleanSlice(u, c, i, j);
    StripEnds(c);
  }

  // ---------------------------------------------------------------------------
  // Step 7: short fragments

  /** A fragment step 7 keeps: stripped, longer than `MinFragment`, no period. */
  predicate Fragment(f: string) {
    |f| > MinFragment && Strip(f) == f && '.' !in f
  }

  /** The stripped pieces longer than `MinFragment`, in their original order. */
  function LongFragments(parts: seq<string>): (kept: seq<string>)
    ensures |kept| <= |parts|
    ensures forall j :: 0 <= j < |kept| ==> |kept[j]| > MinFragment
    decreases |parts|
  {
    if parts == [] then []
    else
      var last := Strip(parts[|parts| - 1]);
      LongFragments(parts[..|parts| - 1]) + (if |last| > MinFragment then [last] else [])
  }

  /** `kept[j]` is the stripped piece `parts[idx[j]]`, the indices ascend and
      they are exactly those of the pieces longer than `MinFragment` once stripped. */
  ghost predicate Selects(idx: seq<nat>, parts: seq<string>, kept: seq<string>) {
    && |idx| == |kept|
    && (forall j :: 0 <= j < |idx| ==> idx[j] < |parts| && kept[j] == Strip(parts[idx[j]]))
    && (forall j, j' :: 0 <= j < j' < |idx| ==> idx[j] < idx[j'])
    && (forall i :: 0 <= i < |parts| ==> (i in idx <==> |Strip(parts[i])| > MinFragment))
  }

  /** Step 7 keeps exactly the pieces whose stripped length exceeds
      `MinFragment`, in their original order. */
  lemma LongFragmentsSelect(parts: seq<string>)
    ensures exists idx :: Selects(idx, parts, LongFragments(parts))
  {
    var idx := SelectedIndices(parts);
  }

  /** The indices behind `LongFragments(parts)`, built piece by piece. */
  lemma {:induction false} SelectedIndices(parts: seq<string>) returns (idx: seq<nat>)
    ensures Selects(idx, parts, LongFragments(parts))
    decreases |parts|
  {
    if parts == [] {
      idx := [];
    } else {
      var n := |parts| - 1;
      var init := parts[..n];
      var kept := LongFragments(init);
      var idx0 := SelectedIndices(init);
      var last := Strip(parts[n]);
      if |last| > MinFragment {
        assert LongFragments(parts) == kept + [last];
        SelectsSnocLong(idx0, parts, kept);
        idx := idx0 + [n];
      } else {
        assert LongFragments(parts) == kept;
        SelectsSnocShort(idx0, parts, kept);
        idx := idx0;
      }
    }
  }

  /** One more piece, long enough once stripped: it is selected. */
  lemma SelectsSnocLong(idx: seq<nat>, parts: seq<string>, kept: seq<string>)
    requires |parts| > 0 && Selects(idx, parts[..|parts| - 1], kept)
    requires |Strip(parts[|parts| - 1])| > MinFragment
    ensures Selects(idx + [|parts| - 1], parts, kept + [Strip(parts[|parts| - 1])])
  {
    var n := |parts| - 1;
    assert forall i :: 0 <= i < n ==> parts[i] == parts[..n][i];
    assert forall j :: 0 <= j < |idx| ==> idx[j] < n;
  }

  /** One more piece, too short once stripped: it is left out. */
  lemma SelectsSnocShort(idx: seq<nat>, parts: seq<string>, kept: seq<string>)
    requires |parts| > 0 && Selects(idx, parts[..|parts| - 1], kept)
    requires |Strip(parts[|parts| - 1])| <= MinFragment
    ensures Selects(idx, parts, kept)
  {
    var n := |parts| - 1;
    assert forall i :: 0 <= i < n ==> parts[i] == parts[..n][i];
    assert forall j :: 0 <= j < |idx| ==> idx[j] < n;
  }

  /** The text step 7 produces from `t`. */
  function Filtered(t: string): string {
    Join(". ", LongFragments(Split(t, '.')))
  }

  /** One more piece for `LongFragments`. */
  lemma LongFragmentsStep(parts: seq<string>, i: nat)
    requires i < |parts|
    ensures LongFragments(parts[..i + 1]) ==
              LongFragments(parts[..i]) + (if |Strip(parts[i])| > MinFragment then [Strip(parts[i])] else [])
  {
    assert parts[..i + 1][..i] == parts[..i];
  }

  /** The loop of step 7, as `summarize_text` runs it. */
  method FilterShortFragments(text: string) returns (r: string)
    ensures r == Filtered(text)
  {
    var sentences := Split(text, '.');
    var cleaned: seq<string> := [];
    var i := 0;
    while i < |sentences|
      invariant 0 <= i <= |sentences|
      invariant cleaned == LongFragments(sentences[..i])
    {
      var sentence := Strip(sentences[i]);
      LongFragmentsStep(sentences, i);
      if |sentence| > MinFragment {
        cleaned := cleaned + [sentence];
      }
      i := i + 1;
    }
    assert sentences[..|sentences|] == sentences;
    r := Join(". ", cleaned);
  }

  /** Every piece of a split of clean text is clean. */
  lemma {:induction false} SplitClean(u: UnicodeDb, s: string)
    requires Clean(u, s)
    ensures forall k :: 0 <= k < |Split(s, '.')| ==> Clean(u, Split(s, '.')[k])
    decreases |s|
  {
    if '.' in s {
      var k := IndexOf(s, '.');
      CleanSlice(u, s, 0, k);
      CleanSlice(u, s, k + 1, |s|);
      SplitClean(u, s[k + 1..]);
    }
  }

  /** Clean pieces without a period, as a split at `.` of clean text gives. */
  predicate CleanPieces(u: UnicodeDb, parts: seq<string>) {
    forall k :: 0 <= k < |parts| ==> Clean(u, parts[k]) && '.' !in parts[k]
  }

  predicate TidyFragments(u: UnicodeDb, frags: seq<string>) {
    forall j :: 0 <= j < |frags| ==> Tidy(u, frags[j]) && Fragment(frags[j])
  }

  /** A clean piece without a period strips to tidy text without one. */
  lemma PieceTidy(u: UnicodeDb, p: string)
    requires Clean(u, p) && '.' !in p
    ensures Tidy(u, Strip(p)) && '.' !in Strip(p) && Strip(Strip(p)) == Strip(p)
  {
    var last := Strip(p);
    var i, j := StripSlice(p);
    CleanSlice(u, p, i, j);
    StripEnds(p);
    StripUnchanged(last);
    assert forall m :: 0 <= m < |last| ==> last[m] == p[i + m];
  }

  /** The fragments kept from clean pieces are tidy fragments. */
  lemma {:induction false} LongFragmentsTidy(u: UnicodeDb, parts: seq<string>)
    requires CleanPieces(u, parts)
    ensures TidyFragments(u, LongFragments(parts))
    decreases |parts|
  {
    if parts != [] {
      var n := |parts| - 1;
      var init := parts[..n];
      assert CleanPieces(u, init) by {
        assert forall k :: 0 <= k < n ==> init[k] == parts[k];
      }
      LongFragmentsTidy(u, init);
      var p := parts[n];
      PieceTidy(u, p);
      var kept := LongFragments(init);
      if |Strip(p)| > MinFragment {
        assert LongFragments(parts) == kept + [Strip(p)];
        assert forall j :: 0 <= j < |kept| ==> (kept + [Strip(p)])[j] == kept[j];
      } else {
        assert LongFragments(parts) == kept;
      }
    }
  }

  /** Joining non-empty tidy fragments with `". "` gives tidy text that
      starts with the first fragment. */
  lemma {:induction false} JoinTidy(u: UnicodeDb, frags: seq<string>)
    requires forall j :: 0 <= j < |frags| ==> Tidy(u, frags[j]) && frags[j] != []
    ensures Tidy(u, Join(". ", frags))
    ensures |frags| > 0 ==> Join(". ", frags) != [] && Join(". ", frags)[0] == frags[0][0]
    decreases |frags|
  {
    if |frags| > 1 {
      var rest := Join(". ", frags[1..]);
      JoinTidy(u, frags[1..]);
      assert CleanChar(u, '.') && CleanChar(u, ' ');
      assert Clean(u, ". ");
      CleanConcat(u, frags[0], ". ");
      CleanConcat(u, frags[0] + ". ", rest);
      assert Join(". ", frags) == frags[0] + ". " + rest;
      assert (frags[0] + ". " + rest)[0] == frags[0][0];
    }
  }

  /** Step 7 turns tidy text into tidy text made of fragments. */
  lemma FilteredTidy(u: UnicodeDb, t: string)
    requires Clean(u, t)
    ensures Tidy(u, Filtered(t))
    ensures TidyFragments(u, LongFragments(Split(t, '.')))
  {
    var parts := Split(t, '.');
    SplitPieces(t, '.');
    SplitClean(u, t);
    assert CleanPieces(u, parts);
    LongFragmentsTidy(u, parts);
    JoinTidy(u, LongFragments(parts));
  }

  // ---------------------------------------------------------------------------
  // Step 8: truncation at a sentence boundary

  /** The accumulation loop of step 8, from `acc` on: each piece is added with
      a period while the text so far plus the piece stays under `MaxLength`;
      the first piece that does not fit ends the loop. */
  function Accumulate(pieces: seq<string>, acc: string): string
    decreases |pieces|
  {
    if pieces == [] then acc
    else if |acc + pieces[0]| < MaxLength then Accumulate(pieces[1..], acc + pieces[0] + ".")
    else acc
  }

  /** Step 8: text over `MaxLength` is cut back to whole sentences. */
  function Truncate(t: string): string {
    if |t| > MaxLength then Strip(Accumulate(Split(t, '.'), "")) else t
  }

  /** The accumulated text never grows past `MaxLength`. */
  lemma {:induction false} AccumulateBound(pieces: seq<string>, acc: string)
    requires |acc| <= MaxLength
    ensures |Accumulate(pieces, acc)| <= MaxLength
    decreases |pieces|
  {
    if pieces != [] && |acc + pieces[0]| < MaxLength {
      AccumulateBound(pieces[1..], acc + pieces[0] + ".");
    }
  }

  /** Step 8 as `summarize_text` runs it. */
  method TruncateAtSentence(text: string) returns (r: string)
    ensures r == Truncate(text)
    ensures |r| <= MaxLength
  {
    r := text;
    if |text| > MaxLength {
      var sentences := Split(text, '.');
      var truncated := "";
      var i := 0;
      while i < |sentences|
        invariant 0 <= i <= |sentences|
        invariant |truncated| <= MaxLength
        invariant Accumulate(sentences[i..], truncated) == Accumulate(sentences, "")
      {
        if |truncated + sentences[i]| < MaxLength {
          assert sentences[i..][1..] == sentences[i + 1..];
          truncated := truncated + sentences[i] + ".";
        } else {
          assert Accumulate(sentences[i..], truncated) == truncated;
          break;
        }
        i := i + 1;
      }
      r := Strip(truncated);
      var a, b := StripSlice(truncated);
    }
  }

  /** Each fragment behind a space. */
  function Indented(frags: seq<string>): (r: seq<string>)
    ensures |r| == |frags|
    ensures forall k :: 0 <= k < |r| ==> r[k] == " " + frags[k]
  {
    if frags == [] then [] else [" " + frags[0]] + Indented(frags[1..])
  }

  /** The pieces a split at `.` makes of fragments joined with `". "`: the
      first fragment, then each further one behind the space of its separator. */
  function Spaced(frags: seq<string>): seq<string>
    requires |frags| > 0
  {
    [frags[0]] + Indented(frags[1..])
  }

  lemma SpacedAt(frags: seq<string>, k: nat)
    requires k < |frags|
    ensures |Spaced(frags)| == |frags|
    ensures Spaced(frags)[k] == if k == 0 then frags[0] else " " + frags[k]
  {
  }

  /** Moving the space of `". "` over to the next fragment. */
  lemma Regroup(head: string, rest: string)
    ensures head + "." + (" " + rest) == head + ". " + rest
  {
    var l := head + "." + (" " + rest);
    var r := head + ". " + rest;
    assert |l| == |r|;
    forall i | 0 <= i < |l| ensures l[i] == r[i] {
      if i > |head| + 1 {
        assert l[i] == rest[i - |head| - 2] == r[i];
      }
    }
  }

  lemma {:induction false} JoinIndented(frags: seq<string>)
    requires |frags| > 0
    ensures " " + Join(". ", frags) == Join(".", Indented(frags))
    decreases |frags|
  {
    if |frags| > 1 {
      var rest := Join(". ", frags[1..]);
      JoinIndented(frags[1..]);
      var ind := Indented(frags);
      assert ind[1..] == Indented(frags[1..]);
      assert Join(".", ind) == ind[0] + "." + Join(".", ind[1..]);
      Regroup(" " + frags[0], rest);
      assert " " + frags[0] + ". " + rest == " " + (frags[0] + ". " + rest);
    }
  }

  lemma JoinSpaced(frags: seq<string>)
    requires |frags| > 0
    ensures Join(". ", frags) == Join(".", Spaced(frags))
  {
    var sp := Spaced(frags);
    if |frags| > 1 {
      var rest := Join(". ", frags[1..]);
      JoinIndented(frags[1..]);
      assert sp[1..] == Indented(frags[1..]);
      assert Join(".", sp) == sp[0] + "." + Join(".", sp[1..]);
      Regroup(frags[0], rest);
    }
  }

  /** A split at `.` of fragments joined with `". "` gives back the fragments,
      each but the first behind the space of its separator. */
  lemma SplitJoinedFragments(frags: seq<string>)
    requires |frags| > 0 && forall j :: 0 <= j < |frags| ==> '.' !in frags[j]
    ensures Split(Join(". ", frags), '.') == Spaced(frags)
  {
    var sp := Spaced(frags);
    JoinSpaced(frags);
    forall k | 0 <= k < |sp| ensures '.' !in sp[k] {
      SpacedAt(frags, k);
    }
    SplitJoin(sp, '.');
  }

  /** The text accumulated after the first `m` fragments. */
  function AccumulatedAfter(frags: seq<string>, m: nat): string
    requires m <= |frags|
  {
    if m == 0 then "" else Join(". ", frags[..m]) + "."
  }

  /** Over fragments joined with `". "`, the accumulation from step `m` ends
      with a prefix of the joined text that ends in a period, and with nothing
      exactly when it stops at the very first fragment. */
  lemma {:induction false} AccumulateFragments(frags: seq<string>, m: nat)
    requires m < |frags|
    requires |Join(". ", frags)| >= MaxLength
    ensures var r := Accumulate(Spaced(frags)[m..], AccumulatedAfter(frags, m));
            && (r == [] <==> m == 0 && |frags[0]| >= MaxLength)
            && (r != [] ==> r <= Join(". ", frags) && r[|r| - 1] == '.')
    decreases |frags| - m
  {
    var sp := Spaced(frags);
    var acc := AccumulatedAfter(frags, m);
    if |acc + sp[m]| < MaxLength {
      AccumulateGoesOn(frags, m);
      AccumulateFragments(frags, m + 1);
    } else {
      AccumulateStopsAt(frags, m);
    }
  }

  /** A fragment that fits is added, and the accumulation goes on with the next. */
  lemma AccumulateGoesOn(frags: seq<string>, m: nat)
    requires m < |frags| && |Join(". ", frags)| >= MaxLength
    requires |AccumulatedAfter(frags, m) + Spaced(frags)[m]| < MaxLength
    ensures m + 1 < |frags|
    ensures Accumulate(Spaced(frags)[m..], AccumulatedAfter(frags, m))
              == Accumulate(Spaced(frags)[m + 1..], AccumulatedAfter(frags, m + 1))
  {
    var sp := Spaced(frags);
    AccumulatedStep(frags, m);
    assert m + 1 < |frags| by {
      assert frags[..|frags|] == frags;
    }
    assert sp[m..][1..] == sp[m + 1..];
  }

  /** A fragment that does not fit ends the accumulation with what was
      gathered before it: nothing at the first fragment, otherwise a prefix
      of the joined text ending in a period. */
  lemma AccumulateStopsAt(frags: seq<string>, m: nat)
    requires m < |frags|
    requires |AccumulatedAfter(frags, m) + Spaced(frags)[m]| >= MaxLength
    ensures var r := Accumulate(Spaced(frags)[m..], AccumulatedAfter(frags, m));
            && r == AccumulatedAfter(frags, m)
            && (r == [] <==> m == 0)
            && (r != [] ==> r <= Join(". ", frags) && r[|r| - 1] == '.')
  {
    SpacedAt(frags, m);
    if m > 0 {
      JoinPrefix(". ", frags, m);
    }
  }

  /** Adding piece `m` of the split to the text accumulated so far gives the
      join of the first `m + 1` fragments. */
  lemma AccumulatedStep(frags: seq<string>, m: nat)
    requires m < |frags|
    ensures |Spaced(frags)| == |frags|
    ensures AccumulatedAfter(frags, m) + Spaced(frags)[m] == Join(". ", frags[..m + 1])
    ensures AccumulatedAfter(frags, m) + Spaced(frags)[m] + "." == AccumulatedAfter(frags, m + 1)
  {
    SpacedAt(frags, m);
    JoinSnoc(". ", frags[..m], frags[m]);
    PrefixSnoc(frags, m);
  }

  /** Step 8 on the output of step 7: when it cuts, the result is a prefix of
      its input ending in a period, empty exactly when the first fragment
      alone reaches `MaxLength`. */
  lemma TruncateFragments(frags: seq<string>)
    requires |frags| > 0 && forall j :: 0 <= j < |frags| ==> Fragment(frags[j])
    requires |Join(". ", frags)| > MaxLength
    ensures var r := Truncate(Join(". ", frags));
            && r <= Join(". ", frags)
            && (r == [] <==> |frags[0]| >= MaxLength)
            && (r != [] ==> r[|r| - 1] == '.')
  {
    assert forall j :: 0 <= j < |frags| ==> '.' !in frags[j];
    TruncateIsAccumulate(frags);
    AccumulateFromStart(frags);
    var r := Accumulate(Spaced(frags), "");
    if r != [] {
      AccumulatedIsStripped(frags, r);
    }
  }

  /** Over joined fragments, step 8 strips what the accumulation gathers
      from the pieces of the split. */
  lemma TruncateIsAccumulate(frags: seq<string>)
    requires |frags| > 0 && forall j :: 0 <= j < |frags| ==> '.' !in frags[j]
    requires |Join(". ", frags)| > MaxLength
    ensures Truncate(Join(". ", frags)) == Strip(Accumulate(Spaced(frags), ""))
  {
    SplitJoinedFragments(frags);
  }

  /** `AccumulateFragments` from the first fragment on. */
  lemma AccumulateFromStart(frags: seq<string>)
    requires |frags| > 0 && |Join(". ", frags)| >= MaxLength
    ensures var r := Accumulate(Spaced(frags), "");
            && (r == [] <==> |frags[0]| >= MaxLength)
            && (r != [] ==> r <= Join(". ", frags) && r[|r| - 1] == '.')
  {
    var sp := Spaced(frags);
    assert sp[0..] == sp;
    assert AccumulatedAfter(frags, 0) == "";
    AccumulateFragments(frags, 0);
  }

  /** A nonempty cut of joined fragments starts with the first fragment's
      non-space first character and ends in a period: nothing to strip. */
  lemma AccumulatedIsStripped(frags: seq<string>, r: string)
    requires |frags| > 0 && Fragment(frags[0])
    requires r != [] && r <= Join(". ", frags) && r[|r| - 1] == '.'
    ensures Strip(r) == r
  {
    JoinStartsWithFirst(frags);
    assert r[0] == frags[0][0];
    StripEnds(frags[0]);
    StripUnchanged(r);
  }

  /** A join starts with its first piece. */
  lemma JoinStartsWithFirst(frags: seq<string>)
    requires |frags| > 0
    ensures frags[0] <= Join(". ", frags)
  {
    if |frags| > 1 {
      assert Join(". ", frags) == frags[0] + (". " + Join(". ", frags[1..]));
    }
  }

  // ---------------------------------------------------------------------------
  // The whole cleanup

  /** Step 2: the five header deletions, in order. */
  function DropHeaders(t: string): (r: string)
    ensures |r| <= |t|
  {
    var t := DropHeaderField(t, "from:");
    var t := DropHeaderField(t, "to:");
    var t := DropHeaderField(t, "subject:");
    var t := DropHeaderField(t, "date:");
    DropHeaderField(t, "reply-to:")
  }

  /** Step 3: URLs, then e-mail addresses. */
  function DropLinks(t: string): (r: string)
    ensures |r| <= |t|
  {
    DropEmails(DropUrls(t))
  }

  /** Step 4: the three footer deletions, in order. */
  function DropFooters(t: string): (r: string)
    ensures |r| <= |t|
  {
    var t := DropToLineEnd(t, "unsubscribe");
    var t := DropToLineEnd(t, "click here");
    DropToLineEnd(t, "view in browser")
  }

  /** Steps 5 and 6. */
  function Normalise(u: UnicodeDb, t: string): string {
    Strip(CollapseWhitespace(ReplaceDisallowed(u, t)))
  }

  /** Steps 1 to 6. */
  function Scrub(u: UnicodeDb, raw: string): string {
    Normalise(u, DropFooters(DropLinks(DropHeaders(u.nfkd(raw)))))
  }

  /** A pattern key: never empty. */
  type Key = k: string | k != [] witness "from:"

  /** The rewritings of the cleanup, one per statement of `summarize_text`. */
  datatype Step =
    | Decompose
    | HeaderField(key: Key)
    | Urls
    | Emails
    | Footer(key: Key)
    | Disallowed
    | Whitespace
    | Stripped
    | ShortFragments
    | Length

  function Apply(u: UnicodeDb, step: Step, t: string): string {
    match step
    case Decompose => u.nfkd(t)
    case HeaderField(key) => DropHeaderField(t, key)
    case Urls => DropUrls(t)
    case Emails => DropEmails(t)
    case Footer(key) => DropToLineEnd(t, key)
    case Disallowed => ReplaceDisallowed(u, t)
    case Whitespace => CollapseWhitespace(t)
    case Stripped => Strip(t)
    case ShortFragments => Filtered(t)
    case Length => Truncate(t)
  }

  const HeaderSteps: seq<Step> :=
    [HeaderField("from:"), HeaderField("to:"), HeaderField("subject:"), HeaderField("date:"), HeaderField("reply-to:")]
  const LinkSteps: seq<Step> := [Urls, Emails]
  const FooterSteps: seq<Step> := [Footer("unsubscribe"), Footer("click here"), Footer("view in browser")]
  const NormalSteps: seq<Step> := [Disallowed, Whitespace, Stripped]
  const FinalSteps: seq<Step> := [ShortFragments, Length]

  /** The steps in the order `summarize_text` takes them. */
  const Pipeline: seq<Step> := [Decompose] + HeaderSteps + LinkSteps + FooterSteps + NormalSteps + FinalSteps

  /** `t` rewritten by each step in turn. */
  function RunSteps(u: UnicodeDb, steps: seq<Step>, t: string): string
    decreases |steps|
  {
    if steps == [] then t else RunSteps(u, steps[1..], Apply(u, steps[0], t))
  }

  /** The text `summarize_text` hands to the summarisers. */
  function Cleaned(u: UnicodeDb, raw: string): string {
    RunSteps(u, Pipeline, raw)
  }

  /** Running the steps of `a + b` runs those of `a`, then those of `b`. */
  lemma {:induction false} RunStepsAppend(u: UnicodeDb, a: seq<Step>, b: seq<Step>, t: string)
    ensures RunSteps(u, a + b, t) == RunSteps(u, b, RunSteps(u, a, t))
    decreases |a|
  {
    if a == [] {
      assert a + b == b;
    } else {
      assert (a + b)[1..] == a[1..] + b;
      RunStepsAppend(u, a[1..], b, Apply(u, a[0], t));
    }
  }

  lemma HeaderStage(u: UnicodeDb, t: string)
    ensures RunSteps(u, HeaderSteps, t) == DropHeaders(t)
  {
    var s := HeaderSteps;
    assert s[1..][1..][1..][1..][1..] == [];
  }

  lemma LinkStage(u: UnicodeDb, t: string)
    ensures RunSteps(u, LinkSteps, t) == DropLinks(t)
  {
    var t1 := DropUrls(t);
    assert LinkSteps[0] == Urls && LinkSteps[1..][0] == Emails;
    assert RunSteps(u, LinkSteps, t) == RunSteps(u, LinkSteps[1..], t1);
    assert LinkSteps[1..][1..] == [];
  }

  lemma FooterStage(u: UnicodeDb, t: string)
    ensures RunSteps(u, FooterSteps, t) == DropFooters(t)
  {
    assert FooterSteps[1..][1..][1..] == [];
  }

  lemma NormalStage(u: UnicodeDb, t: string)
    ensures RunSteps(u, NormalSteps, t) == Normalise(u, t)
  {
    assert NormalSteps[1..][1..][1..] == [];
  }

  lemma FinalStage(u: UnicodeDb, t: string)
    ensures RunSteps(u, FinalSteps, t) == Truncate(Filtered(t))
  {
    assert FinalSteps[1..][1..] == [];
  }

  /** The pipeline is steps 1 to 6, then the fragment filter, then truncation. */
  lemma CleanedStages(u: UnicodeDb, raw: string)
    ensures Cleaned(u, raw) == Truncate(Filtered(Scrub(u, raw)))
  {
    var t0 := u.nfkd(raw);
    assert RunSteps(u, [Decompose], raw) == t0;
    var t1 := DropHeaders(t0);
    HeaderStage(u, t0);
    var t2 := DropLinks(t1);
    LinkStage(u, t1);
    var t3 := DropFooters(t2);
    FooterStage(u, t2);
    var t4 := Normalise(u, t3);
    NormalStage(u, t3);
    FinalStage(u, t4);
    var p1 := [Decompose] + HeaderSteps;
    var p2 := p1 + LinkSteps;
    var p3 := p2 + FooterSteps;
    var p4 := p3 + NormalSteps;
    RunStepsAppend(u, [Decompose], HeaderSteps, raw);
    RunStepsAppend(u, p1, LinkSteps, raw);
    RunStepsAppend(u, p2, FooterSteps, raw);
    RunStepsAppend(u, p3, NormalSteps, raw);
    RunStepsAppend(u, p4, FinalSteps, raw);
  }

  /** Step 8 on tidy fragments joined by step 7 keeps the text tidy and
      brings it within `MaxLength`. */
  lemma TruncateTidy(u: UnicodeDb, frags: seq<string>)
    requires TidyFragments(u, frags) && Tidy(u, Join(". ", frags))
    ensures |Truncate(Join(". ", frags))| <= MaxLength
    ensures Tidy(u, Truncate(Join(". ", frags)))
  {
    var f := Join(". ", frags);
    if |f| > MaxLength {
      assert |frags| > 0;
      TruncateFragments(frags);
      AccumulateBound(Split(f, '.'), "");
      var r := Truncate(f);
      if r != [] {
        CleanSlice(u, f, 0, |r|);
        assert r == f[..|r|];
      }
    }
  }

  /** The cleaned text is tidy and at most `MaxLength` long, whatever the input. */
  lemma CleanedShape(u: UnicodeDb, raw: string)
    ensures |Cleaned(u, raw)| <= MaxLength
    ensures Tidy(u, Cleaned(u, raw))
  {
    CleanedStages(u, raw);
    var s := Scrub(u, raw);
    ScrubbedIsTidy(u, DropFooters(DropLinks(DropHeaders(u.nfkd(raw)))));
    FilteredTidy(u, s);
    TruncateTidy(u, LongFragments(Split(s, '.')));
  }

  /** With tables that are right on ASCII, clean text holds no `/`, `@`, `<` or `>`. */
  lemma CleanHasNoLinkChars(u: UnicodeDb, s: string)
    requires AsciiFaithful(u) && Clean(u, s)
    ensures '/' !in s && '@' !in s && '<' !in s && '>' !in s
  {
    assert !CleanChar(u, '/') && !CleanChar(u, '@') && !CleanChar(u, '<') && !CleanChar(u, '>');
  }

  /** So the cleaned text holds no `http://` and no `user@host.tld`. */
  lemma CleanedHasNoLinks(u: UnicodeDb, raw: string)
    requires AsciiFaithful(u)
    ensures var r := Cleaned(u, raw); '/' !in r && '@' !in r && '<' !in r && '>' !in r
  {
    CleanedShape(u, raw);
    CleanHasNoLinkChars(u, Cleaned(u, raw));
  }

  /** Steps 1 to 8 in the order `summarize_text` runs them. */
  method CleanText(u: UnicodeDb, raw: string) returns (text: string)
    ensures text == Cleaned(u, raw)
    ensures |text| <= MaxLength && Tidy(u, text)
  {
    text := u.nfkd(raw);
    text := DropHeaderField(text, "from:");
    text := DropHeaderField(text, "to:");
    text := DropHeaderField(text, "subject:");
    text := DropHeaderField(text, "date:");
    text := DropHeaderField(text, "reply-to:");
    assert text == DropHeaders(u.nfkd(raw));
    text := DropUrls(text);
    text := DropEmails(text);
    text := DropToLineEnd(text, "unsubscribe");
    text := DropToLineEnd(text, "click here");
    text := DropToLineEnd(text, "view in browser");
    text := ReplaceDisallowed(u, text);
    text := CollapseWhitespace(text);
    text := Strip(text);
    assert text == Scrub(u, raw);
    text := FilterShortFragments(text);
    text := TruncateAtSentence(text);
    CleanedStages(u, raw);
    CleanedShape(u, raw);
  }
}
