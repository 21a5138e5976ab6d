/** The JavaScript string primitives the review code relies on, over `seq<char>`:
    `trim`, `indexOf`/`match` of a literal, `split` on a literal and on `/\s+/`,
    `\d`-runs, `parseInt` of a digit run and the decimal text of an integer. */
module Text {
  import opened Wrappers

  /** The characters JavaScript treats as white space, both in `String.prototype.trim`
      and in the regular-expression class `\s` (WhiteSpace and LineTerminator). */
  predicate IsSpace(c: char) {
    || c == '\t' || c == '\n' || c == '\U{B}' || c == '\U{C}' || c == '\r' || c == ' '
    || c == '\U{A0}' || c == '\U{1680}' || ('\U{2000}' <= c <= '\U{200A}')
    || c == '\U{2028}' || c == '\U{2029}' || c == '\U{202F}' || c == '\U{205F}'
    || c == '\U{3000}' || c == '\U{FEFF}'
  }

  /** The regular-expression class `\d`: ASCII digits only. */
  predicate IsDigit(c: char) { '0' <= c <= '9' }

  /** The regular-expression class `[A-Za-z]`. */
  predicate IsAsciiLetter(c: char) { 'A' <= c <= 'Z' || 'a' <= c <= 'z' }

  predicate AllSpace(s: string) { forall i :: 0 <= i < |s| ==> IsSpace(s[i]) }

  predicate NoSpace(s: string) { forall i :: 0 <= i < |s| ==> !IsSpace(s[i]) }

  predicate AllDigits(s: string) { forall i :: 0 <= i < |s| ==> IsDigit(s[i]) }

  /** The length of the white-space run that starts `s`. */
  function LeadingSpaces(s: string): (n: nat)
    ensures n <= |s| && AllSpace(s[..n])
    ensures n < |s| ==> !IsSpace(s[n])
    decreases |s|
  {
    if |s| > 0 && IsSpace(s[0]) then 1 + LeadingSpaces(s[1..]) else 0
  }

  /** The length of the white-space run that ends `s`. */
  function TrailingSpaces(s: string): (n: nat)
    ensures n <= |s| && forall i :: |s| - n <= i < |s| ==> IsSpace(s[i])
    ensures n < |s| ==> !IsSpace(s[|s| - n - 1])
    decreases |s|
  {
    if |s| > 0 && IsSpace(s[|s| - 1]) then 1 + TrailingSpaces(s[..|s| - 1]) else 0
  }

  /** `String.prototype.trim`: the text between the leading and the trailing white space. */
  function Trim(s: string): (r: string)
    ensures |r| <= |s|
    ensures r == [] ==> AllSpace(s)
    ensures r != [] ==> !IsSpace(r[0]) && !IsSpace(r[|r| - 1])
  {
    var t := s[LeadingSpaces(s)..];
    assert t == [] || !IsSpace(t[0]);
    t[..|t| - TrailingSpaces(t)]
  }

  /** `"x".indexOf(pat, from) == k` for some `k`: `pat` is written in `s` at position `k`. */
  predicate OccursAt(s: string, pat: string, k: nat) {
    k + |pat| <= |s| && s[k..k + |pat|] == pat
  }

  predicate Contains(s: string, pat: string) {
    exists k: nat | k <= |s| :: OccursAt(s, pat, k)
  }

  /** `s.indexOf(pat, from)`, with `None` for JavaScript's -1: the first occurrence at or after `from`. */
  function IndexOfFrom(s: string, pat: string, from: nat): (r: Option<nat>)
    ensures r.Some? ==> from <= r.value && OccursAt(s, pat, r.value)
    ensures r.Some? ==> forall k: nat :: from <= k < r.value ==> !OccursAt(s, pat, k)
    ensures r.None? ==> forall k: nat :: from <= k ==> !OccursAt(s, pat, k)
    decreases |s| - from
  {
    if from + |pat| > |s| then None
    else if OccursAt(s, pat, from) then Some(from)
    else IndexOfFrom(s, pat, from + 1)
  }

  /** The first occurrence of `pat` in `s`; also what `s.match(/pat/)` finds for a literal pattern. */
  function IndexOf(s: string, pat: string): (r: Option<nat>)
    ensures r.Some? ==> OccursAt(s, pat, r.value) && forall k: nat :: k < r.value ==> !OccursAt(s, pat, k)
    ensures r.None? <==> !Contains(s, pat)
  {
    IndexOfFrom(s, pat, 0)
  }

  /** `s.split(sep)[1]`: the text between the first and the second occurrence of `sep`
      (or the end of `s`); `None` (JavaScript's `undefined`) when `sep` does not occur. */
  function SecondPiece(s: string, sep: string): (r: Option<string>)
    requires |sep| > 0
    ensures r.Some? <==> Contains(s, sep)
  {
    match IndexOf(s, sep)
    case None => None
    case Some(k) =>
      var rest := s[k + |sep|..];
      match IndexOf(rest, sep)
      case None => Some(rest)
      case Some(j) => Some(rest[..j])
  }

  /** The index of the first white-space character of `s`, or `|s|`. */
  function FirstSpace(s: string): (k: nat)
    ensures k <= |s| && NoSpace(s[..k])
    ensures k < |s| ==> IsSpace(s[k])
    decreases |s|
  {
    if |s| == 0 || IsSpace(s[0]) then 0 else 1 + FirstSpace(s[1..])
  }

  /** `s.split(/\s+/)`: the pieces between the maximal white-space runs of `s`. */
  function SplitOnSpaceRuns(s: string): (r: seq<string>)
    ensures |r| >= 1
    ensures forall i :: 0 <= i < |r| ==> NoSpace(r[i])
    decreases |s|
  {
    var k := FirstSpace(s);
    if k == |s| then [s]
    else
      var rest := s[k..];
      var w := LeadingSpaces(rest);
      [s[..k]] + SplitOnSpaceRuns(rest[w..])
  }

  /** The length of the `\d` run that starts `s`. */
  function DigitRun(s: string): (n: nat)
    ensures n <= |s| && AllDigits(s[..n])
    ensures n < |s| ==> !IsDigit(s[n])
    decreases |s|
  {
    if |s| > 0 && IsDigit(s[0]) then 1 + DigitRun(s[1..]) else 0
  }

  /** The index of the first digit of `s`, or `|s|`. */
  function FirstDigit(s: string): (k: nat)
    ensures k <= |s| && forall i :: 0 <= i < k ==> !IsDigit(s[i])
    ensures k < |s| ==> IsDigit(s[k])
    decreases |s|
  {
    if |s| == 0 || IsDigit(s[0]) then 0 else 1 + FirstDigit(s[1..])
  }

  /** `s.match(/\d+/)[0]`: the first maximal digit run of `s`, `None` when `s` has no digit. */
  function FirstDigits(s: string): (r: Option<string>)
    ensures r.Some? ==> |r.value| > 0 && AllDigits(r.value)
    ensures r.None? <==> forall i :: 0 <= i < |s| ==> !IsDigit(s[i])
    ensures r.Some? ==>
              var k := FirstDigit(s);
              && k + |r.value| <= |s| && s[k..k + |r.value|] == r.value
              && (k + |r.value| < |s| ==> !IsDigit(s[k + |r.value|]))
  {
    var k := FirstDigit(s);
    if k == |s| then None
    else
      var n := DigitRun(s[k..]);
      assert s[k..][..n] == s[k..k + n] && (k + n < |s| ==> s[k..][n] == s[k + n]);
      Some(s[k..k + n])
  }

  function DigitValue(c: char): (v: nat)
    requires IsDigit(c)
    ensures v < 10
  {
    (c as int - '0' as int) as nat
  }

  function DigitChar(v: nat): (c: char)
    requires v < 10
    ensures IsDigit(c) && DigitValue(c) == v
  {
    ('0' as int + v) as char
  }

  /** `parseInt` of a run of decimal digits. */
  function ParseDigits(d: string): nat
    requires AllDigits(d)
    decreases |d|
  {
    if d == [] then 0 else 10 * ParseDigits(d[..|d| - 1]) + DigitValue(d[|d| - 1])
  }

  /** The decimal text of a natural number, without leading zeros. */
  function NatToString(n: nat): (s: string)
    ensures |s| > 0 && AllDigits(s)
    ensures |s| > 1 ==> s[0] != '0'
  {
    if n < 10 then [DigitChar(n)] else NatToString(n / 10) + [DigitChar(n % 10)]
  }

  /** The decimal text of an integer, as JavaScript's string conversion writes it. */
  function IntToString(i: int): (s: string)
    ensures NoSpace(s) && |s| > 0
  {
    if i < 0 then "-" + NatToString(-i) else NatToString(i)
  }

  /** `String.prototype.toUpperCase` on ASCII letters; other characters are kept. */
  function UpperAscii(s: string): (r: string)
    ensures |r| == |s|
    ensures forall i :: 0 <= i < |s| ==> r[i] == if 'a' <= s[i] <= 'z' then (s[i] as int - 32) as char else s[i]
  {
    seq(|s|, i requires 0 <= i < |s| => if 'a' <= s[i] <= 'z' then (s[i] as int - 32) as char else s[i])
  }

  /** `parts.join(sep)`. */
  function Join(parts: seq<string>, sep: string): string
    decreases |parts|
  {
    if parts == [] then ""
    else if |parts| == 1 then parts[0]
    else parts[0] + sep + Join(parts[1..], sep)
  }

  /** Reading back a number's decimal text gives the number. */
  lemma {:induction false} ParseNatToString(n: nat)
    ensures ParseDigits(NatToString(n)) == n
  {
    if n >= 10 {
      var s := NatToString(n);
      assert s[..|s| - 1] == NatToString(n / 10);
      ParseNatToString(n / 10);
    }
  }

  // ---------------------------------------------------------------------------------
  // Facts about `indexOf` used by the parser's proofs

  /** A position where `pat` does not occur can be skipped. */
  lemma {:induction false} IndexOfFromStep(s: string, pat: string, from: nat)
    requires !OccursAt(s, pat, from)
    ensures IndexOfFrom(s, pat, from) == IndexOfFrom(s, pat, from + 1)
  {
  }

  /** `pat` does not occur at `k` when one of its characters is not there. */
  lemma {:induction false} NotOccursAt(s: string, pat: string, k: nat, i: nat)
    requires i < |pat| && k + i < |s| && s[k + i] != pat[i]
    ensures !OccursAt(s, pat, k)
  {
    if k + |pat| <= |s| {
      assert s[k..k + |pat|][i] == s[k + i];
    }
  }

  /** Positions where `pat` does not occur can be skipped. */
  lemma {:induction false} IndexOfFromSkip(s: string, pat: string, from: nat, upto: nat)
    requires from <= upto
    requires forall j :: from <= j < upto ==> !OccursAt(s, pat, j)
    ensures IndexOfFrom(s, pat, from) == IndexOfFrom(s, pat, upto)
    decreases upto - from
  {
    if from < upto {
      IndexOfFromStep(s, pat, from);
      IndexOfFromSkip(s, pat, from + 1, upto);
    }
  }

  /** A search result moved `d` positions to the right. */
  function Shifted(r: Option<nat>, d: nat): (q: Option<nat>)
    ensures q.None? <==> r.None?
    ensures q.Some? ==> q.value == d + r.value
  {
    match r
    case None => None
    case Some(k) => Some(d + k)
  }

  lemma {:induction false} OccursShift(pre: string, s: string, pat: string, j: nat)
    ensures OccursAt(pre + s, pat, |pre| + j) <==> OccursAt(s, pat, j)
  {
    if j + |pat| <= |s| {
      assert (pre + s)[|pre| + j..|pre| + j + |pat|] == s[j..j + |pat|];
    }
  }

  /** Searching `pre + s` past `pre` is searching `s`, shifted by `|pre|`. */
  lemma {:induction false} IndexOfFromShift(pre: string, s: string, pat: string, j: nat)
    ensures IndexOfFrom(pre + s, pat, |pre| + j) ==
              Shifted(IndexOfFrom(s, pat, j), |pre|)
    decreases |s| - j
  {
    OccursShift(pre, s, pat, j);
    var u := pre + s;
    if j + |pat| > |s| {
      assert IndexOfFrom(s, pat, j) == None;
      assert IndexOfFrom(u, pat, |pre| + j) == None;
    } else if OccursAt(s, pat, j) {
      assert IndexOfFrom(s, pat, j) == Some(j);
      assert IndexOfFrom(u, pat, |pre| + j) == Some(|pre| + j);
    } else {
      IndexOfFromShift(pre, s, pat, j + 1);
      assert IndexOfFrom(s, pat, j) == IndexOfFrom(s, pat, j + 1);
      assert IndexOfFrom(u, pat, |pre| + j) == IndexOfFrom(u, pat, |pre| + (j + 1));
    }
  }

  /** When `pat` starts nowhere inside `lead`, the first occurrence in `lead + tail` is the
      first occurrence in `tail`, shifted by `|lead|`. */
  lemma {:induction false} IndexOfPastLead(lead: string, tail: string, pat: string)
    requires forall j :: 0 <= j < |lead| ==> !OccursAt(lead + tail, pat, j)
    ensures IndexOf(lead + tail, pat) ==
              Shifted(IndexOf(tail, pat), |lead|)
  {
    var s := lead + tail;
    IndexOfFromSkip(s, pat, 0, |lead|);
    IndexOfFromShift(lead, tail, pat, 0);
    assert IndexOf(s, pat) == IndexOfFrom(s, pat, |lead| + 0);
    assert IndexOf(tail, pat) == IndexOfFrom(tail, pat, 0);
  }

  /** An occurrence with none before it is the one `indexOf` finds. */
  lemma {:induction false} IndexOfFirst(s: string, pat: string, k: nat)
    requires OccursAt(s, pat, k)
    requires forall j: nat :: j < k ==> !OccursAt(s, pat, j)
    ensures IndexOf(s, pat) == Some(k)
  {
    var r := IndexOf(s, pat);
    assert r.Some?;
  }

  // ---------------------------------------------------------------------------------
  // Facts about `split(/\s+/)` and `join`

  /** Concatenation is associative; stated once so that proofs need not rediscover it. */
  lemma AppendAssoc<T>(a: seq<T>, b: seq<T>, c: seq<T>)
    ensures a + b + c == a + (b + c)
  {
  }

  /** `s` is its first `k` elements, the next `w`, and the rest. */
  lemma SplitThree<T>(s: seq<T>, k: nat, w: nat)
    requires k + w <= |s|
    ensures s == s[..k] + s[k..][..w] + s[k..][w..]
  {
    assert s[k..] == s[k..][..w] + s[k..][w..];
    assert s == s[..k] + s[k..];
    AppendAssoc(s[..k], s[k..][..w], s[k..][w..]);
  }

  /** Dropping the first two parts of a concatenation leaves the others. */
  lemma DropTwo<T>(a: seq<T>, b: seq<T>, c: seq<T>, d: seq<T>)
    ensures (a + b + c + d)[|a| + |b|..] == c + d
  {
    assert a + b + c + d == (a + b) + (c + d);
  }

  /** A prefix reaching into the third part of a concatenation. */
  lemma PrefixIntoThird<T>(a: seq<T>, b: seq<T>, c: seq<T>, n: nat)
    requires n <= |c|
    ensures (a + b + c)[..|a| + |b| + n] == a + b + c[..n]
  {
    assert a + b + c == (a + b) + c;
  }

  /** The first white space of `tok + rest` is the one that starts `rest`. */
  lemma {:induction false} FirstSpaceAfter(tok: string, rest: string)
    requires NoSpace(tok)
    requires rest == [] || IsSpace(rest[0])
    ensures FirstSpace(tok + rest) == |tok|
  {
    var s := tok + rest;
    var f := FirstSpace(s);
    assert forall i :: 0 <= i < f ==> !IsSpace(s[i]);
    assert forall i :: 0 <= i < |tok| ==> s[i] == tok[i];
    assert rest != [] ==> s[|tok|] == rest[0];
  }

  /** A white-space run of length `w` followed by a non-space is what `LeadingSpaces` counts. */
  lemma {:induction false} LeadingSpacesIs(s: string, w: nat)
    requires w <= |s| && AllSpace(s[..w])
    requires w < |s| ==> !IsSpace(s[w])
    ensures LeadingSpaces(s) == w
    decreases w
  {
    if w > 0 {
      assert IsSpace(s[..w][0]);
      assert s[1..][..w - 1] == s[..w][1..];
      LeadingSpacesIs(s[1..], w - 1);
    }
  }

  /** `\s+`-splitting a token, a white-space run and the rest gives the token and then the
      pieces of the rest. */
  lemma {:induction false} SplitCons(tok: string, sp: string, rest: string)
    requires NoSpace(tok)
    requires |sp| > 0 && AllSpace(sp)
    requires rest == [] || !IsSpace(rest[0])
    ensures SplitOnSpaceRuns(tok + sp + rest) == [tok] + SplitOnSpaceRuns(rest)
  {
    var s := tok + sp + rest;
    assert s == tok + (sp + rest);
    FirstSpaceAfter(tok, sp + rest);
    assert s[|tok|..] == sp + rest;
    assert (sp + rest)[..|sp|] == sp;
    LeadingSpacesIs(sp + rest, |sp|);
    assert (sp + rest)[|sp|..] == rest;
    assert s[..|tok|] == tok;
  }

  /** A `join` of pieces whose first one is non-empty starts with that piece's first character. */
  lemma {:induction false} JoinHead(parts: seq<string>, sep: string)
    requires |parts| > 0 && |parts[0]| > 0
    ensures |Join(parts, sep)| > 0 && Join(parts, sep)[0] == parts[0][0]
  {
  }

  /** `join` of two non-empty lists is the two joins with one separator between them. */
  lemma {:induction false} JoinAppend(a: seq<string>, b: seq<string>, sep: string)
    requires |a| > 0 && |b| > 0
    ensures Join(a + b, sep) == Join(a, sep) + sep + Join(b, sep)
    decreases |a|
  {
    if |a| == 1 {
      assert (a + b)[1..] == b;
    } else {
      assert (a + b)[1..] == a[1..] + b;
      JoinAppend(a[1..], b, sep);
    }
  }

  /** Splitting the single-space `join` of non-empty, space-free pieces at white-space runs
      gives the pieces back. */
  lemma {:induction false} SplitJoin(parts: seq<string>)
    requires |parts| > 0
    requires forall i :: 0 <= i < |parts| ==> |parts[i]| > 0 && NoSpace(parts[i])
    ensures SplitOnSpaceRuns(Join(parts, " ")) == parts
    decreases |parts|
  {
    if |parts| == 1 {
      assert FirstSpace(parts[0]) == |parts[0]|;
    } else {
      var rest := Join(parts[1..], " ");
      JoinHead(parts[1..], " ");
      SplitCons(parts[0], " ", rest);
      SplitJoin(parts[1..]);
    }
  }
}
