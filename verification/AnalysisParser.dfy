/** The reading of Leela Zero's `lz-analyze` diagnostics in review.js (`reviewOneStep`,
    the `.map` over the console log entries tagged with the analysed node, and the
    `.filter(x => x != null)` after it). Each trimmed line gives an "NN eval" record,
    a candidate-move record, nothing, or an error where the JavaScript throws. */
module AnalysisParser {
  import opened Wrappers
  import opened Text

  /** A board vertex `[x, y]`. */
  datatype Vertex = Vertex(x: int, y: int)

  /** The collaborators the review calls but that are not part of this model:
      `board.coord2vertex` of the analysed node's board, `sgf.stringifyVertex`,
      JavaScript's `parseFloat`, the string conversion of a number and `toFixed(2)`. */
  datatype Host = Host(
    coord2vertex: string -> Vertex,
    stringifyVertex: Vertex -> string,
    parseFloat: string -> real,
    numberText: real -> string,
    toFixed2: real -> string)

  /** The objects the `.map` returns: `{winrate}` for an "NN eval" line, and
      `{pv, prior, winrate, visits, variation, sign}` for a candidate move. */
  datatype Record =
    | Evaluation(winrate: real)
    | Candidate(pv: seq<string>, prior: real, winrate: real, visits: nat, variation: seq<Vertex>, sign: int)

  /** The TypeErrors the review step can throw. */
  datatype ReviewError =
    | WinrateMissing       // `matchV` is null: no `V:` in the header
    | PriorMissing         // `matchN` is null: no `N:` in the header
    | VisitsMissing        // `matchVisit` is null: no digit after the first `->`
    | NoRecord             // `analysis[0]` is undefined
    | EvaluationAfterFirst // an "NN eval" record has no `variation` to format

  const EvalMarker: string := "NN eval="
  const PvMarker: string := "PV: "

  /** A token of a principal variation: `pass` or `[A-Za-z]\d+`. */
  predicate IsPvToken(w: string) {
    w == "pass" || (|w| >= 2 && IsAsciiLetter(w[0]) && AllDigits(w[1..]))
  }

  /** The length of the token `(pass|[A-Za-z]\d+)` that starts `t` (digits taken greedily), 0 if none. */
  function TokenLength(t: string): (n: nat)
    ensures n <= |t|
    ensures n > 0 ==> IsPvToken(t[..n]) && NoSpace(t[..n]) && !IsSpace(t[0])
    ensures n > 0 && t[..n] != "pass" ==> n >= 2 && IsAsciiLetter(t[0]) && AllDigits(t[..n][1..])
  {
    if |t| >= 4 && t[..4] == "pass" then 4
    else if |t| >= 2 && IsAsciiLetter(t[0]) && IsDigit(t[1]) then
      var d := DigitRun(t[1..]);
      assert t[1..][..d] == t[1..1 + d];
      assert t[..1 + d][1..] == t[1..1 + d];
      1 + d
    else 0
  }

  /** The tokens of `t` when `t` matches `(pass|[A-Za-z]\d+)(\s+(pass|[A-Za-z]\d+))*\s*$`
      (what follows `PV: ` in a candidate line), `None` when it does not. */
  function PvTokens(t: string): (r: Option<seq<string>>)
    ensures r.Some? ==> |r.value| > 0 && forall i :: 0 <= i < |r.value| ==> IsPvToken(r.value[i])
    decreases |t|
  {
    var k := TokenLength(t);
    if k == 0 then None
    else
      var rest := t[k..];
      if AllSpace(rest) then Some([t[..k]])
      else
        var w := LeadingSpaces(rest);
        if w == 0 then None
        else
          match PvTokens(rest[w..])
          case None => None
          case Some(more) => Some([t[..k]] + more)
  }

  /** The `lz-analyze` pattern for a principal variation matches `s` at position `i`. */
  predicate PvMatchAt(s: string, i: nat) {
    OccursAt(s, PvMarker, i) && PvTokens(s[i + |PvMarker|..]).Some?
  }

  /** The leftmost match of the principal-variation pattern at or after `from` (`matchPV.index`). */
  function FindPvFrom(s: string, from: nat): (r: Option<nat>)
    ensures r.Some? ==> from <= r.value && PvMatchAt(s, r.value)
    ensures r.Some? ==> forall k: nat :: from <= k < r.value ==> !PvMatchAt(s, k)
    ensures r.None? ==> forall k: nat :: from <= k ==> !PvMatchAt(s, k)
    decreases |s| - from
  {
    if from + |PvMarker| > |s| then None
    else if PvMatchAt(s, from) then Some(from)
    else FindPvFrom(s, from + 1)
  }

  function FindPv(s: string): (r: Option<nat>)
    ensures r.Some? ==> PvMatchAt(s, r.value) && forall k: nat :: k < r.value ==> !PvMatchAt(s, k)
    ensures r.None? ==> forall k: nat :: !PvMatchAt(s, k)
  {
    FindPvFrom(s, 0)
  }

  /** The tokens before the first `pass` (all of them when there is none). */
  function UntilPass(tokens: seq<string>): (r: seq<string>)
    ensures |r| <= |tokens| && r == tokens[..|r|]
    ensures "pass" !in r
    ensures "pass" !in tokens ==> r == tokens
    ensures "pass" in tokens ==> tokens[|r|] == "pass"
  {
    if tokens == [] || tokens[0] == "pass" then []
    else [tokens[0]] + UntilPass(tokens[1..])
  }

  /** `pv`, computed from the matched text `matchPV[0]` as review.js:139-145 does:
      split at white-space runs after cutting at the first `pass`, dropping the `PV:`. */
  function PvList(matched: string): seq<string> {
    match IndexOf(matched, "pass")
    case None => SplitOnSpaceRuns(matched)[1..]
    case Some(p) => SplitOnSpaceRuns(matched[..p])[1..]
  }

  /** `/[A-T][\d]* ->/` matches `h` at position `j`. */
  predicate MoveMarkerAt(h: string, j: nat) {
    j < |h| && 'A' <= h[j] <= 'T' && OccursAt(h, " ->", j + 1 + DigitRun(h[j + 1..]))
  }

  predicate HasMoveMarker(h: string) {
    exists j: nat | j < |h| :: MoveMarkerAt(h, j)
  }

  /** The number of literal spaces (`[ ]*`) that start `s`. */
  function LiteralSpaces(s: string): (n: nat)
    ensures n <= |s| && forall i :: 0 <= i < n ==> s[i] == ' '
    ensures n < |s| ==> s[n] != ' '
    decreases |s|
  {
    if |s| > 0 && s[0] == ' ' then 1 + LiteralSpaces(s[1..]) else 0
  }

  /** The length of the `[\d.]*` run that starts `s`. */
  function NumberRun(s: string): (n: nat)
    ensures n <= |s| && forall i :: 0 <= i < n ==> IsDigit(s[i]) || s[i] == '.'
    ensures n < |s| ==> !IsDigit(s[n]) && s[n] != '.'
    decreases |s|
  {
    if |s| > 0 && (IsDigit(s[0]) || s[0] == '.') then 1 + NumberRun(s[1..]) else 0
  }

  // `h.match(/F:[ ]*[\d.]*/)[0].split(/F:[ ]*/)[1]`: the digits and dots written after the
  // first `F:` of `h` and its spaces; `None` when the match is null.
  // The value is the whole `[\d.]*` run that follows the first `F:` and the literal spaces
  // after it.
  function FieldText(h: string, field: string): (r: Option<string>)
    ensures r.Some? <==> Contains(h, field)
    ensures r.Some? ==> forall i :: 0 <= i < |r.value| ==> IsDigit(r.value[i]) || r.value[i] == '.'
    ensures r.Some? ==>
              && IndexOf(h, field).Some?
              && var p := IndexOf(h, field).value + |field|;
                 var q := p + LiteralSpaces(h[p..]);
                 && q + |r.value| <= |h|
                 && (forall i :: p <= i < q ==> h[i] == ' ')
                 && (q < |h| ==> h[q] != ' ')
                 && h[q..q + |r.value|] == r.value
                 && (q + |r.value| < |h| ==> !IsDigit(h[q + |r.value|]) && h[q + |r.value|] != '.')
  {
    if IndexOf(h, field).None? then None
    else
      var p := IndexOf(h, field).value + |field|;
      var q := p + LiteralSpaces(h[p..]);
      FieldRunAt(h, p);
      Some(h[q..q + NumberRun(h[q..])])
  }

  /** The spaces and the `[\d.]*` run that start at index `p` of `h`, by index into `h`. */
  lemma FieldRunAt(h: string, p: nat)
    requires p <= |h|
    ensures var q := p + LiteralSpaces(h[p..]);
            var n := NumberRun(h[q..]);
            && q + n <= |h|
            && (forall i :: p <= i < q ==> h[i] == ' ')
            && (q < |h| ==> h[q] != ' ')
            && (q + n < |h| ==> !IsDigit(h[q + n]) && h[q + n] != '.')
  {
    var q := p + LiteralSpaces(h[p..]);
    var n := NumberRun(h[q..]);
    forall i | p <= i < q
      ensures h[i] == ' '
    {
      assert h[i] == h[p..][i - p];
    }
    if q < |h| {
      assert h[q] == h[p..][q - p];
    }
    if q + n < |h| {
      assert h[q + n] == h[q..][n];
    }
  }

  /** `header.split("->")[1].match(/[\d]+/)[0]`: the first maximal digit run of the text
      between the first and the second `->`; `None` when there is no `->` or that text has
      no digit. */
  function VisitDigits(h: string): (r: Option<string>)
    ensures r.Some? ==> |r.value| > 0 && AllDigits(r.value)
    ensures r.None? <==>
              || SecondPiece(h, "->").None?
              || forall i :: 0 <= i < |SecondPiece(h, "->").value| ==> !IsDigit(SecondPiece(h, "->").value[i])
    ensures r.Some? ==>
              && SecondPiece(h, "->").Some?
              && var seg := SecondPiece(h, "->").value;
                 var k := FirstDigit(seg);
                 && k + |r.value| <= |seg| && seg[k..k + |r.value|] == r.value
                 && (k + |r.value| < |seg| ==> !IsDigit(seg[k + |r.value|]))
  {
    match SecondPiece(h, "->")
    case None => None
    case Some(segment) => FirstDigits(segment)
  }

  /** `pv.map(x => board.coord2vertex(x))`. */
  function Vertices(pv: seq<string>, host: Host): (r: seq<Vertex>)
    ensures |r| == |pv| && forall k :: 0 <= k < |pv| ==> r[k] == host.coord2vertex(pv[k])
  {
    seq(|pv|, k requires 0 <= k < |pv| => host.coord2vertex(pv[k]))
  }

  /** The body of the `.map` at review.js:127-168 for one trimmed line. */
  function ParseLine(content: string, sign: int, host: Host): Result<Option<Record>, ReviewError> {
    match SecondPiece(content, EvalMarker)
    case Some(text) => Success(Some(Evaluation(100.0 * host.parseFloat(text))))
    case None =>
      match FindPv(content)
      case None => Success(None)
      case Some(i) =>
        var pv := PvList(content[i..]);
        var header := content[..i];
        if !HasMoveMarker(header) then Success(None)
        else
          match FieldText(header, "V:")
          case None => Failure(WinrateMissing)
          case Some(winrate) =>
            match FieldText(header, "N:")
            case None => Failure(PriorMissing)
            case Some(prior) =>
              match VisitDigits(header)
              case None => Failure(VisitsMissing)
              case Some(visits) =>
                Success(Some(Candidate(pv, host.parseFloat(prior), host.parseFloat(winrate),
                                       ParseDigits(visits), Vertices(pv, host), sign)))
  }

  /** The whole chain at review.js:127-169 over the contents of the tagged entries, in log
      order: each is trimmed and parsed, the first throw aborts, and nulls are dropped. */
  function ParseAll(contents: seq<string>, sign: int, host: Host): Result<seq<Record>, ReviewError>
    decreases |contents|
  {
    if contents == [] then Success([])
    else
      match ParseAll(contents[..|contents| - 1], sign, host)
      case Failure(e) => Failure(e)
      case Success(records) =>
        match ParseLine(Trim(contents[|contents| - 1]), sign, host)
        case Failure(e) => Failure(e)
        case Success(None) => Success(records)
        case Success(Some(r)) => Success(records + [r])
  }

  /** The trimmed text `line` makes the parser throw. */
  predicate LineThrows(line: string, sign: int, host: Host) {
    ParseLine(Trim(line), sign, host).Failure?
  }

  /** How many entries the `.map` reads: up to and including the first whose text throws,
      or all of them. */
  function Reach(lines: seq<string>, sign: int, host: Host): (k: nat)
    ensures k <= |lines|
    decreases |lines|
  {
    if lines == [] then 0
    else if LineThrows(lines[0], sign, host) then 1
    else 1 + Reach(lines[1..], sign, host)
  }

  // ---------------------------------------------------------------------------------
  // Properties of the line parser

  /** A line that contains `NN eval=` yields an evaluation record and never a candidate:
      its value is 100 times the number written between the first marker and the next
      marker (or the end of the line). */
  lemma {:induction false} EvaluationLine(pre: string, text: string, post: string, sign: int, host: Host)
    requires forall k: nat :: k < |pre| ==> !OccursAt(pre + EvalMarker + text + post, EvalMarker, k)
    requires forall k: nat :: k < |text| ==> !OccursAt(text + post, EvalMarker, k)
    requires post == [] || OccursAt(post, EvalMarker, 0)
    ensures ParseLine(pre + EvalMarker + text + post, sign, host) == Success(Some(Evaluation(100.0 * host.parseFloat(text))))
  {
    EvalSecondPiece(pre, text, post);
    EvaluationOf(pre + EvalMarker + text + post, text, sign, host);
  }

  /** A line whose text after the first `NN eval=` is `text` is an evaluation of `text`. */
  lemma EvaluationOf(content: string, text: string, sign: int, host: Host)
    requires SecondPiece(content, EvalMarker) == Some(text)
    ensures ParseLine(content, sign, host) == Success(Some(Evaluation(100.0 * host.parseFloat(text))))
  {
  }

  /** `split("NN eval=")[1]` of `pre + "NN eval=" + text + post` is `text`. */
  lemma {:induction false} EvalSecondPiece(pre: string, text: string, post: string)
    requires forall k: nat :: k < |pre| ==> !OccursAt(pre + EvalMarker + text + post, EvalMarker, k)
    requires forall k: nat :: k < |text| ==> !OccursAt(text + post, EvalMarker, k)
    requires post == [] || OccursAt(post, EvalMarker, 0)
    ensures SecondPiece(pre + EvalMarker + text + post, EvalMarker) == Some(text)
  {
    var content := pre + EvalMarker + text + post;
    EvalMarkerFirst(pre, text, post);
    EvalTextEnd(text, post);
    var rest := content[|pre| + |EvalMarker|..];
    DropTwo(pre, EvalMarker, text, post);
    if post == [] {
      assert rest == text;
    } else {
      assert rest[..|text|] == text;
    }
    assert SecondPiece(content, EvalMarker) == Some(text);
  }

  /** With no earlier marker, `indexOf("NN eval=")` finds the one after `pre`. */
  lemma {:induction false} EvalMarkerFirst(pre: string, text: string, post: string)
    requires forall k: nat :: k < |pre| ==> !OccursAt(pre + EvalMarker + text + post, EvalMarker, k)
    ensures IndexOf(pre + EvalMarker + text + post, EvalMarker) == Some(|pre|)
  {
    var content := pre + EvalMarker + text + post;
    assert content[|pre|..|pre| + |EvalMarker|] == EvalMarker;
    IndexOfFirst(content, EvalMarker, |pre|);
  }

  /** The text after the first marker runs to the next marker, which starts `post`, or to the end. */
  lemma {:induction false} EvalTextEnd(text: string, post: string)
    requires forall k: nat :: k < |text| ==> !OccursAt(text + post, EvalMarker, k)
    requires post == [] || OccursAt(post, EvalMarker, 0)
    ensures IndexOf(text + post, EvalMarker) == if post == [] then None else Some(|text|)
  {
    var rest := text + post;
    if post == [] {
      assert rest == text;
      assert forall k: nat :: |text| <= k ==> !OccursAt(rest, EvalMarker, k);
      assert !Contains(rest, EvalMarker);
    } else {
      assert rest[|text|..|text| + |EvalMarker|] == post[..|EvalMarker|];
      IndexOfFirst(rest, EvalMarker, |text|);
    }
  }

  /** The three outcomes of a line: an evaluation exactly when `NN eval=` occurs; otherwise
      nothing exactly when the principal-variation pattern does not match or the header
      before it has no `[A-T]\d* ->`; otherwise a candidate or a throw. */
  lemma {:induction false} LineOutcomes(content: string, sign: int, host: Host)
    ensures (ParseLine(content, sign, host).Success? && ParseLine(content, sign, host).value.Some?
             && ParseLine(content, sign, host).value.value.Evaluation?) <==> Contains(content, EvalMarker)
    ensures ParseLine(content, sign, host) == Success(None) <==>
              !Contains(content, EvalMarker)
              && ((forall i: nat :: !PvMatchAt(content, i))
                  || (exists i: nat | i <= |content| :: PvMatchAt(content, i) && !HasMoveMarker(content[..i])
                        && forall k: nat :: k < i ==> !PvMatchAt(content, k)))
    ensures ParseLine(content, sign, host).Success? && ParseLine(content, sign, host).value.Some?
            && ParseLine(content, sign, host).value.value.Candidate? ==>
              !Contains(content, EvalMarker) && FindPv(content).Some?
              && HasMoveMarker(content[..FindPv(content).value])
              && Contains(content[..FindPv(content).value], "V:")
              && Contains(content[..FindPv(content).value], "N:")
    ensures !Contains(content, EvalMarker) && FindPv(content).Some? && HasMoveMarker(content[..FindPv(content).value]) ==>
              var h := content[..FindPv(content).value];
              var r := ParseLine(content, sign, host);
              && (r == Failure(WinrateMissing) <==> !Contains(h, "V:"))
              && (r == Failure(PriorMissing) <==> Contains(h, "V:") && !Contains(h, "N:"))
              && (r == Failure(VisitsMissing) <==> Contains(h, "V:") && Contains(h, "N:") && VisitDigits(h).None?)
              && (r.Success? <==> Contains(h, "V:") && Contains(h, "N:") && VisitDigits(h).Some?)
              && (r.Success? ==> r.value.Some? && r.value.value.Candidate?)
  {
    if !Contains(content, EvalMarker) {
      match FindPv(content)
      case None =>
      case Some(i) =>
        forall j: nat | j <= |content| && PvMatchAt(content, j) && forall k: nat :: k < j ==> !PvMatchAt(content, k)
          ensures j == i
        {
        }
    }
  }

  /** One more log entry: its trimmed text parsed after the entries before it. */
  lemma {:induction false} ParseAllStep(prefix: seq<string>, line: string, sign: int, host: Host,
                                        records: seq<Record>, parsed: Result<Option<Record>, ReviewError>)
    requires ParseAll(prefix, sign, host) == Success(records)
    requires ParseLine(Trim(line), sign, host) == parsed
    ensures ParseAll(prefix + [line], sign, host) ==
              match parsed
              case Failure(e) => Failure(e)
              case Success(None) => Success(records)
              case Success(Some(r)) => Success(records + [r])
  {
    assert (prefix + [line])[..|prefix|] == prefix;
  }

  /** Taking one more element of a sequence appends it to the prefix. */
  lemma PrefixSnoc<T>(s: seq<T>, i: nat)
    requires i < |s|
    ensures s[..i] + [s[i]] == s[..i + 1]
  {
  }

  /** Once a prefix of the log throws, the whole log throws with the same error. */
  lemma {:induction false} ParseAllFailureStays(lines: seq<string>, i: nat, sign: int, host: Host)
    requires i <= |lines| && ParseAll(lines[..i], sign, host).Failure?
    ensures ParseAll(lines, sign, host) == ParseAll(lines[..i], sign, host)
  {
    ParseAllAppend(lines[..i], lines[i..], sign, host);
    assert lines[..i] + lines[i..] == lines;
  }

  /** The walk over the log succeeds exactly when no entry's text throws. */
  lemma {:induction false} ParseAllSucceeds(lines: seq<string>, sign: int, host: Host)
    ensures ParseAll(lines, sign, host).Success? <==>
              forall j :: 0 <= j < |lines| ==> !LineThrows(lines[j], sign, host)
    decreases |lines|
  {
    if lines != [] {
      var front := lines[..|lines| - 1];
      var last := lines[|lines| - 1];
      ParseAllSucceeds(front, sign, host);
      if ParseAll(front, sign, host).Failure? {
        ParseAllFailureStays(lines, |lines| - 1, sign, host);
        var j :| 0 <= j < |front| && LineThrows(front[j], sign, host);
        assert front[j] == lines[j];
      } else {
        PrefixSnoc(lines, |lines| - 1);
        assert front + [last] == lines;
        ParseAllStep(front, last, sign, host, ParseAll(front, sign, host).value, ParseLine(Trim(last), sign, host));
      }
      if ParseAll(lines, sign, host).Success? {
        forall j | 0 <= j < |lines|
          ensures !LineThrows(lines[j], sign, host)
        {
          if j < |front| {
            assert lines[j] == front[j];
          }
        }
      }
    }
  }

  /** A failing walk fails with the error of the first entry whose text throws. */
  lemma {:induction false} ParseAllFirstError(lines: seq<string>, i: nat, sign: int, host: Host)
    requires i < |lines| && LineThrows(lines[i], sign, host)
    requires forall j :: 0 <= j < i ==> !LineThrows(lines[j], sign, host)
    ensures ParseAll(lines, sign, host) == Failure(ParseLine(Trim(lines[i]), sign, host).error)
  {
    var front := lines[..i];
    assert forall j :: 0 <= j < |front| ==> front[j] == lines[j];
    ParseAllSucceeds(front, sign, host);
    var records := ParseAll(front, sign, host).value;
    ParseAllStep(front, lines[i], sign, host, records, ParseLine(Trim(lines[i]), sign, host));
    PrefixSnoc(lines, i);
    ParseAllFailureStays(lines, i + 1, sign, host);
  }

  /** `Reach` counts up to and including the first entry that throws. */
  lemma {:induction false} ReachFirstThrow(lines: seq<string>, i: nat, sign: int, host: Host)
    requires i < |lines| && LineThrows(lines[i], sign, host)
    requires forall j :: 0 <= j < i ==> !LineThrows(lines[j], sign, host)
    ensures Reach(lines, sign, host) == i + 1
    decreases i
  {
    assert lines[0] == lines[..i + 1][0];
    if i > 0 {
      var tail := lines[1..];
      forall j | 0 <= j < i - 1
        ensures !LineThrows(tail[j], sign, host)
      {
        assert tail[j] == lines[j + 1];
      }
      ReachFirstThrow(tail, i - 1, sign, host);
    }
  }

  /** Without a throwing entry, `Reach` counts every entry. */
  lemma {:induction false} ReachNoThrow(lines: seq<string>, sign: int, host: Host)
    requires forall j :: 0 <= j < |lines| ==> !LineThrows(lines[j], sign, host)
    ensures Reach(lines, sign, host) == |lines|
    decreases |lines|
  {
    if lines != [] {
      var tail := lines[1..];
      assert forall j :: 0 <= j < |tail| ==> tail[j] == lines[j + 1];
      ReachNoThrow(tail, sign, host);
    }
  }

  /** The log is read in order: parsing `a + b` is parsing `a` and then `b`, the records of
      `a` come before those of `b`, and a throw in `a` wins over one in `b`. */
  lemma {:induction false} ParseAllAppend(a: seq<string>, b: seq<string>, sign: int, host: Host)
    ensures ParseAll(a + b, sign, host) ==
              match ParseAll(a, sign, host)
              case Failure(e) => Failure(e)
              case Success(ra) =>
                match ParseAll(b, sign, host)
                case Failure(e) => Failure(e)
                case Success(rb) => Success(ra + rb)
    decreases |b|
  {
    if b == [] {
      assert a + b == a;
      if ParseAll(a, sign, host).Success? {
        assert ParseAll(a, sign, host).value + [] == ParseAll(a, sign, host).value;
      }
    } else {
      var b' := b[..|b| - 1];
      assert (a + b)[..|a + b| - 1] == a + b';
      assert (a + b)[|a + b| - 1] == b[|b| - 1];
      ParseAllAppend(a, b', sign, host);
      match ParseAll(a, sign, host)
      case Failure(_) =>
      case Success(ra) =>
        match ParseAll(b', sign, host)
        case Failure(_) =>
        case Success(rb') =>
          match ParseLine(Trim(b[|b| - 1]), sign, host)
          case Failure(_) =>
          case Success(None) =>
          case Success(Some(r)) =>
            assert ra + rb' + [r] == ra + (rb' + [r]);
    }
  }

  // ---------------------------------------------------------------------------------
  // The principal variation: `pv` is the tokens up to the first `pass`

  /** Splitting `PV: x` at white-space runs gives `PV:` and then the pieces of `x`. */
  lemma {:induction false} SplitAfterMarker(x: string)
    requires x == [] || !IsSpace(x[0])
    ensures SplitOnSpaceRuns(PvMarker + x) == ["PV:"] + SplitOnSpaceRuns(x)
  {
    assert PvMarker + x == "PV:" + " " + x;
    SplitCons("PV:", " ", x);
  }

  /** A tail with more than one token: its first token, the white space after it, and the
      remainder, whose tokens are the rest. */
  lemma {:induction false} PvTokensCons(t: string) returns (tok: string, sp: string, tail: string)
    requires PvTokens(t).Some? && !AllSpace(t[TokenLength(t)..])
    ensures t == tok + sp + tail
    ensures tok == t[..TokenLength(t)] && NoSpace(tok) && |tok| > 0
    ensures tok != "pass" ==> |tok| >= 2 && AllDigits(tok[1..])
    ensures |sp| > 0 && AllSpace(sp) && |tail| > 0 && !IsSpace(tail[0])
    ensures PvTokens(tail).Some? && PvTokens(t).value == [tok] + PvTokens(tail).value
  {
    var k := TokenLength(t);
    var rest := t[k..];
    var w := LeadingSpaces(rest);
    PvTokensUnfold(t);
    tok, sp, tail := t[..k], rest[..w], rest[w..];
    SplitThree(t, k, w);
    assert tail[0] == rest[w];
  }

  /** One step of `PvTokens` past a first token followed by more than white space. */
  lemma PvTokensUnfold(t: string)
    requires PvTokens(t).Some? && !AllSpace(t[TokenLength(t)..])
    ensures var rest := t[TokenLength(t)..];
            var w := LeadingSpaces(rest);
            && 0 < w < |rest| && PvTokens(rest[w..]).Some?
            && PvTokens(t).value == [t[..TokenLength(t)]] + PvTokens(rest[w..]).value
  {
  }

  /** The tokens of a tail without trailing white space are its `\s+`-separated pieces. */
  lemma {:induction false} SplitTokens(t: string, toks: seq<string>)
    requires PvTokens(t) == Some(toks)
    requires |t| > 0 && !IsSpace(t[|t| - 1])
    ensures SplitOnSpaceRuns(t) == toks
    decreases |t|
  {
    var k := TokenLength(t);
    if AllSpace(t[k..]) {
      assert t[k..] == [];
      assert t[..k] == t;
      assert FirstSpace(t) == |t|;
    } else {
      var tok, sp, tail := PvTokensCons(t);
      SplitCons(tok, sp, tail);
      assert tail[|tail| - 1] == t[|t| - 1];
      SplitTokens(tail, PvTokens(tail).value);
    }
  }

  /** The first `pass` after a `[A-Za-z]\d+` token and white space is the first `pass`
      of what follows them. */
  lemma {:induction false} PassAfterToken(tok: string, sp: string, tail: string)
    requires |tok| >= 2 && AllDigits(tok[1..]) && AllSpace(sp)
    ensures IndexOf(tok + sp + tail, "pass") ==
              Shifted(IndexOf(tail, "pass"), |tok| + |sp|)
  {
    var t := tok + sp + tail;
    forall j | 0 <= j < |tok + sp|
      ensures !OccursAt(t, "pass", j)
    {
      if j == 0 {
        assert t[1] == tok[1..][0];
        NotOccursAt(t, "pass", 0, 1);
      } else if j < |tok| {
        assert t[j] == tok[1..][j - 1];
        NotOccursAt(t, "pass", j, 0);
      } else {
        assert t[j] == sp[j - |tok|];
        NotOccursAt(t, "pass", j, 0);
      }
    }
    IndexOfPastLead(tok + sp, tail, "pass");
  }

  lemma {:induction false} UntilPassCons(tok: string, more: seq<string>)
    requires tok != "pass"
    ensures UntilPass([tok] + more) == [tok] + UntilPass(more)
    ensures "pass" in [tok] + more <==> "pass" in more
  {
    assert ([tok] + more)[1..] == more;
  }

  /** `t.indexOf("pass")` finds the first `pass` token of `toks`, and `\s+`-splitting the text
      before it gives the tokens before that `pass` and one empty piece. */
  predicate PassCut(t: string, toks: seq<string>) {
    && ("pass" !in toks ==> IndexOf(t, "pass") == None)
    && ("pass" in toks ==>
          IndexOf(t, "pass").Some? && SplitOnSpaceRuns(t[..IndexOf(t, "pass").value]) == UntilPass(toks) + [[]])
  }

  lemma {:induction false} NoPassCons(tok: string, sp: string, tail: string, more: seq<string>)
    requires tok != "pass" && |tok| >= 2 && AllDigits(tok[1..])
    requires AllSpace(sp)
    requires "pass" !in more && IndexOf(tail, "pass") == None
    ensures "pass" !in [tok] + more && IndexOf(tok + sp + tail, "pass") == None
  {
    PassAfterToken(tok, sp, tail);
    UntilPassCons(tok, more);
  }

  lemma {:induction false} PassCutCons(tok: string, sp: string, tail: string, more: seq<string>, off: nat)
    requires tok != "pass" && |tok| >= 2 && AllDigits(tok[1..]) && NoSpace(tok)
    requires |sp| > 0 && AllSpace(sp) && |tail| > 0 && !IsSpace(tail[0])
    requires IndexOf(tail, "pass") == Some(off)
    requires SplitOnSpaceRuns(tail[..off]) == UntilPass(more) + [[]]
    ensures IndexOf(tok + sp + tail, "pass") == Some(|tok| + |sp| + off)
    ensures SplitOnSpaceRuns((tok + sp + tail)[..|tok| + |sp| + off]) == UntilPass([tok] + more) + [[]]
  {
    assert IndexOf(tok + sp + tail, "pass") == Some(|tok| + |sp| + off) by {
      PassAfterToken(tok, sp, tail);
    }
    CutSplitCons(tok, sp, tail, more, off);
  }

  /** Splitting the text before a `pass` that lies past a leading token and white space. */
  lemma CutSplitCons(tok: string, sp: string, tail: string, more: seq<string>, off: nat)
    requires tok != "pass" && NoSpace(tok)
    requires |sp| > 0 && AllSpace(sp) && |tail| > 0 && !IsSpace(tail[0])
    requires off <= |tail| && SplitOnSpaceRuns(tail[..off]) == UntilPass(more) + [[]]
    ensures SplitOnSpaceRuns((tok + sp + tail)[..|tok| + |sp| + off]) == UntilPass([tok] + more) + [[]]
  {
    UntilPassCons(tok, more);
    var cut := tail[..off];
    PrefixIntoThird(tok, sp, tail, off);
    assert cut == [] || cut[0] == tail[0];
    SplitCons(tok, sp, cut);
    AppendAssoc([tok], UntilPass(more), [[]]);
  }

  /** A leading `[A-Za-z]\d+` token and white space keep `PassCut`. */
  lemma {:induction false} PassCutStep(tok: string, sp: string, tail: string, more: seq<string>)
    requires tok != "pass" && |tok| >= 2 && AllDigits(tok[1..]) && NoSpace(tok)
    requires |sp| > 0 && AllSpace(sp) && |tail| > 0 && !IsSpace(tail[0])
    requires PassCut(tail, more)
    ensures PassCut(tok + sp + tail, [tok] + more)
  {
    UntilPassCons(tok, more);
    var u := tok + sp + tail;
    if "pass" in more {
      var off := IndexOf(tail, "pass").value;
      PassCutCons(tok, sp, tail, more, off);
      assert IndexOf(u, "pass").value == |tok| + |sp| + off;
      assert SplitOnSpaceRuns(u[..IndexOf(u, "pass").value]) == UntilPass([tok] + more) + [[]];
    } else {
      NoPassCons(tok, sp, tail, more);
    }
  }

  /** `PassCut` holds of every principal-variation tail and its tokens. */
  lemma {:induction false} PassScan(t: string, toks: seq<string>)
    requires PvTokens(t) == Some(toks)
    ensures PassCut(t, toks)
    decreases |t|
  {
    var k := TokenLength(t);
    assert toks[0] == t[..k];
    if t[..k] == "pass" {
      PassScanFirst(t, toks);
    } else if AllSpace(t[k..]) {
      PassScanSingle(t, toks);
    } else {
      var tok, sp, tail := PvTokensCons(t);
      PassScan(tail, PvTokens(tail).value);
      PassCutStep(tok, sp, tail, PvTokens(tail).value);
    }
  }

  /** A tail whose first token is `pass`: the cut is empty, and splitting it gives one empty piece. */
  lemma PassScanFirst(t: string, toks: seq<string>)
    requires PvTokens(t) == Some(toks) && t[..TokenLength(t)] == "pass"
    ensures PassCut(t, toks)
  {
    assert toks[0] == "pass";
    assert OccursAt(t, "pass", 0);
    IndexOfFirst(t, "pass", 0);
    assert t[..0] == [];
    assert FirstSpace([]) == 0;
  }

  /** A tail that is one `[A-Za-z]\d+` token and white space holds no `pass`. */
  lemma PassScanSingle(t: string, toks: seq<string>)
    requires PvTokens(t) == Some(toks) && t[..TokenLength(t)] != "pass"
    requires AllSpace(t[TokenLength(t)..])
    ensures PassCut(t, toks)
  {
    var k := TokenLength(t);
    assert toks == [t[..k]];
    assert t == t[..k] + t[k..] + [];
    PassAfterToken(t[..k], t[k..], []);
  }

  /** The marker `PV: ` holds no `pass`: searching `PV: t` is searching `t`. */
  lemma {:induction false} PassAfterMarker(t: string)
    ensures IndexOf(PvMarker + t, "pass") ==
              Shifted(IndexOf(t, "pass"), |PvMarker|)
  {
    var m := PvMarker + t;
    forall j | 0 <= j < |PvMarker|
      ensures !OccursAt(m, "pass", j)
    {
      assert m[j] == PvMarker[j];
      NotOccursAt(m, "pass", j, 0);
    }
    IndexOfPastLead(PvMarker, t, "pass");
  }

  lemma {:induction false} PvListCut(t: string, toks: seq<string>)
    requires PassCut(t, toks) && "pass" in toks
    requires |t| > 0 && !IsSpace(t[0])
    ensures PvList(PvMarker + t) == UntilPass(toks) + [[]]
  {
    PassAfterMarker(t);
    var off := IndexOf(t, "pass").value;
    assert (PvMarker + t)[..|PvMarker| + off] == PvMarker + t[..off];
    SplitAfterMarker(t[..off]);
  }

  lemma {:induction false} PvListWhole(t: string, toks: seq<string>)
    requires PvTokens(t) == Some(toks) && PassCut(t, toks) && "pass" !in toks
    requires |t| > 0 && !IsSpace(t[|t| - 1])
    ensures PvList(PvMarker + t) == toks
  {
    PassAfterMarker(t);
    assert TokenLength(t) > 0;
    SplitAfterMarker(t);
    SplitTokens(t, toks);
  }

  /** `pv` for a matched `PV: t` whose tail ends the (trimmed) line: the tokens up to the
      first `pass`, followed by one empty string when there is a `pass` (the slice at
      review.js:144 ends in the white space before `pass`), and all the tokens otherwise. */
  lemma {:induction false} PvListTokens(t: string, toks: seq<string>)
    requires PvTokens(t) == Some(toks)
    requires |t| > 0 && !IsSpace(t[|t| - 1])
    ensures PvList(PvMarker + t) == if "pass" in toks then UntilPass(toks) + [[]] else toks
  {
    PassScan(t, toks);
    if "pass" in toks {
      assert TokenLength(t) > 0;
      PvListCut(t, toks);
    } else {
      PvListWhole(t, toks);
    }
  }

  /** `toks` with the white-space run `gaps[i]` between `toks[i]` and `toks[i + 1]`. */
  function Spaced(toks: seq<string>, gaps: seq<string>): string
    requires |toks| > 0 && |gaps| == |toks| - 1
    decreases |toks|
  {
    if |toks| == 1 then toks[0] else toks[0] + gaps[0] + Spaced(toks[1..], gaps[1..])
  }

  /** Every tail the pattern accepts is read: tokens separated by non-empty white-space runs,
      with white space after the last one, give exactly those tokens. */
  lemma {:induction false} PvTokensComplete(toks: seq<string>, gaps: seq<string>, trail: string)
    requires |toks| > 0 && |gaps| == |toks| - 1
    requires forall i :: 0 <= i < |toks| ==> IsPvToken(toks[i])
    requires forall i :: 0 <= i < |gaps| ==> |gaps[i]| > 0 && AllSpace(gaps[i])
    requires AllSpace(trail)
    ensures PvTokens(Spaced(toks, gaps) + trail) == Some(toks)
    decreases |toks|
  {
    var t := Spaced(toks, gaps) + trail;
    if |toks| == 1 {
      assert PvTokens(t) == Some(toks) by {
        assert t == toks[0] + trail;
        PvTokensLast(toks[0], trail);
        assert toks == [toks[0]];
      }
    } else {
      var more := Spaced(toks[1..], gaps[1..]) + trail;
      assert t == toks[0] + gaps[0] + more;
      assert PvTokens(more) == Some(toks[1..]) && |more| > 0 && !IsSpace(more[0]) by {
        assert forall i :: 0 <= i < |toks| - 1 ==> toks[1..][i] == toks[i + 1];
        assert forall i :: 0 <= i < |gaps| - 1 ==> gaps[1..][i] == gaps[i + 1];
        SpacedStart(toks[1..], gaps[1..], trail);
        PvTokensComplete(toks[1..], gaps[1..], trail);
      }
      assert PvTokens(t) == Some(toks) by {
        PvTokensNext(toks[0], gaps[0], more);
        assert toks == [toks[0]] + toks[1..];
      }
    }
  }

  /** The last token and the white space after it. */
  lemma PvTokensLast(tok: string, trail: string)
    requires IsPvToken(tok) && AllSpace(trail)
    ensures PvTokens(tok + trail) == Some([tok])
  {
    var t := tok + trail;
    TokenLengthOf(tok, trail);
    assert t[..|tok|] == tok && t[|tok|..] == trail;
  }

  /** A token, a white-space run, then a tail that starts with a token. */
  lemma PvTokensNext(tok: string, gap: string, more: string)
    requires IsPvToken(tok) && |gap| > 0 && AllSpace(gap)
    requires |more| > 0 && !IsSpace(more[0]) && PvTokens(more).Some?
    ensures PvTokens(tok + gap + more) == Some([tok] + PvTokens(more).value)
  {
    TokenThenGap(tok, gap, more);
    PvTokensStepAt(tok + gap + more, |tok|, |gap|, more);
  }

  /** Where the token pattern and the white-space run end in `tok + gap + more`. */
  lemma TokenThenGap(tok: string, gap: string, more: string)
    requires IsPvToken(tok) && |gap| > 0 && AllSpace(gap)
    requires |more| > 0 && !IsSpace(more[0])
    ensures var t := tok + gap + more;
            && TokenLength(t) == |tok| && t[..|tok|] == tok
            && !AllSpace(t[|tok|..]) && LeadingSpaces(t[|tok|..]) == |gap|
            && t[|tok|..][|gap|..] == more
  {
    var t := tok + gap + more;
    var rest := gap + more;
    assert t[|tok|..] == rest by {
      assert t == tok + rest;
    }
    assert TokenLength(t) == |tok| && t[..|tok|] == tok by {
      assert t == tok + rest;
      TokenLengthOf(tok, rest);
    }
    assert !AllSpace(rest) && LeadingSpaces(rest) == |gap| && rest[|gap|..] == more by {
      assert rest[|gap|] == more[0];
      LeadingSpacesIs(rest, |gap|);
    }
  }

  /** One step of `PvTokens` past the first token, of length `k`, and the white-space run
      of length `w` after it. */
  lemma PvTokensStepAt(t: string, k: nat, w: nat, more: string)
    requires TokenLength(t) == k && k > 0 && !AllSpace(t[k..])
    requires w == LeadingSpaces(t[k..]) && w > 0 && t[k..][w..] == more && PvTokens(more).Some?
    ensures PvTokens(t) == Some([t[..k]] + PvTokens(more).value)
  {
  }

  /** A spaced token list followed by anything starts with a character of its first token,
      which is not white space. */
  lemma SpacedStart(toks: seq<string>, gaps: seq<string>, trail: string)
    requires |toks| > 0 && |gaps| == |toks| - 1 && IsPvToken(toks[0])
    ensures |Spaced(toks, gaps) + trail| > 0 && !IsSpace((Spaced(toks, gaps) + trail)[0])
  {
    assert (Spaced(toks, gaps) + trail)[0] == toks[0][0];
  }

  /** A token followed by white space or the end: the token pattern takes the whole token. */
  lemma TokenLengthOf(tok: string, rest: string)
    requires IsPvToken(tok) && (rest == [] || IsSpace(rest[0]))
    ensures TokenLength(tok + rest) == |tok|
  {
    var t := tok + rest;
    assert t[..|tok|] == tok;
    if tok == "pass" {
      assert t[..4] == tok;
    } else {
      assert t[1] == tok[1] && IsDigit(tok[1..][0]);
      assert t[1..][..|tok| - 1] == tok[1..];
      DigitRunIs(t[1..], |tok| - 1);
    }
  }

  // ---------------------------------------------------------------------------------
  // Properties of a candidate record

  /** Where a candidate record's fields come from: the leftmost principal-variation match
      and the header before it. */
  lemma {:induction false} CandidateFields(content: string, sign: int, host: Host)
    requires ParseLine(content, sign, host).Success? && ParseLine(content, sign, host).value.Some?
    requires ParseLine(content, sign, host).value.value.Candidate?
    ensures FindPv(content).Some?
    ensures var h := content[..FindPv(content).value];
            FieldText(h, "V:").Some? && FieldText(h, "N:").Some? && VisitDigits(h).Some?
    ensures var c := ParseLine(content, sign, host).value.value;
            var h := content[..FindPv(content).value];
            && c.pv == PvList(content[FindPv(content).value..])
            && c.variation == Vertices(c.pv, host)
            && c.sign == sign
            && c.winrate == host.parseFloat(FieldText(h, "V:").value)
            && c.prior == host.parseFloat(FieldText(h, "N:").value)
            && c.visits == ParseDigits(VisitDigits(h).value)
  {
    match SecondPiece(content, EvalMarker)
    case Some(_) =>
      assert false;
    case None =>
      match FindPv(content)
      case None =>
        assert false;
      case Some(i) =>
        var header := content[..i];
        assert HasMoveMarker(header);
        var pv := PvList(content[i..]);
        var winrate := FieldText(header, "V:").value;
        var prior := FieldText(header, "N:").value;
        var visits := VisitDigits(header).value;
        assert ParseLine(content, sign, host).value.value ==
                 Candidate(pv, host.parseFloat(prior), host.parseFloat(winrate),
                           ParseDigits(visits), Vertices(pv, host), sign);
  }

  /** The `pv` of a candidate parsed from a trimmed line is the tokens after `PV:` up to the
      first `pass` (plus the empty piece the slice leaves before it), or all of them; the
      `variation` is `coord2vertex` of each, and the record carries the node's sign. */
  lemma {:induction false} CandidatePv(content: string, sign: int, host: Host)
    requires content == [] || !IsSpace(content[|content| - 1])
    requires ParseLine(content, sign, host).Success? && ParseLine(content, sign, host).value.Some?
    requires ParseLine(content, sign, host).value.value.Candidate?
    ensures FindPv(content).Some? && PvTokens(content[FindPv(content).value + |PvMarker|..]).Some?
    ensures var c := ParseLine(content, sign, host).value.value;
            var toks := PvTokens(content[FindPv(content).value + |PvMarker|..]).value;
            && c.pv == (if "pass" in toks then UntilPass(toks) + [[]] else toks)
            && "pass" !in c.pv
            && |c.variation| == |c.pv|
            && (forall k :: 0 <= k < |c.pv| ==> c.variation[k] == host.coord2vertex(c.pv[k]))
            && c.sign == sign
  {
    var c := ParseLine(content, sign, host).value.value;
    assert FindPv(content).Some? && c.pv == PvList(content[FindPv(content).value..])
           && c.variation == Vertices(c.pv, host) && c.sign == sign by {
      CandidateFields(content, sign, host);
    }
    PvOfRecord(content, c, sign, host);
  }

  /** `CandidatePv` for a record whose `pv` and `variation` are read from the leftmost match. */
  lemma PvOfRecord(content: string, c: Record, sign: int, host: Host)
    requires content == [] || !IsSpace(content[|content| - 1])
    requires c.Candidate? && FindPv(content).Some? && c.pv == PvList(content[FindPv(content).value..])
    requires c.variation == Vertices(c.pv, host) && c.sign == sign
    ensures PvTokens(content[FindPv(content).value + |PvMarker|..]).Some?
    ensures var toks := PvTokens(content[FindPv(content).value + |PvMarker|..]).value;
            && c.pv == (if "pass" in toks then UntilPass(toks) + [[]] else toks)
            && "pass" !in c.pv
            && |c.variation| == |c.pv|
            && (forall k :: 0 <= k < |c.pv| ==> c.variation[k] == host.coord2vertex(c.pv[k]))
  {
    var i := FindPv(content).value;
    PvOfMatch(content, i);
    PassCutOff(PvTokens(content[i + |PvMarker|..]).value);
  }

  /** Whichever way `pv` is cut, it holds no `pass`. */
  lemma PassCutOff(toks: seq<string>)
    ensures "pass" !in if "pass" in toks then UntilPass(toks) + [[]] else toks
  {
    if "pass" in toks {
      assert "pass" != [];
    }
  }

  /** The pieces of a principal-variation match that ends a trimmed line. */
  lemma PvOfMatch(content: string, i: nat)
    requires content == [] || !IsSpace(content[|content| - 1])
    requires FindPv(content) == Some(i)
    ensures PvTokens(content[i + |PvMarker|..]).Some?
    ensures var toks := PvTokens(content[i + |PvMarker|..]).value;
            PvList(content[i..]) == if "pass" in toks then UntilPass(toks) + [[]] else toks
  {
    var t := content[i + |PvMarker|..];
    MatchedTail(content, i);
    PvListTokens(t, PvTokens(t).value);
  }

  /** The text a principal-variation match covers is `PV: ` and a tail that ends the line. */
  lemma {:induction false} MatchedTail(content: string, i: nat)
    requires content == [] || !IsSpace(content[|content| - 1])
    requires PvMatchAt(content, i)
    ensures var t := content[i + |PvMarker|..];
            && content[i..] == PvMarker + t && PvTokens(t).Some?
            && |t| > 0 && !IsSpace(t[|t| - 1])
  {
    var t := content[i + |PvMarker|..];
    assert TokenLength(t) > 0;
    assert t[|t| - 1] == content[|content| - 1];
    assert content[i..] == content[i..i + |PvMarker|] + t;
  }

  /** `visits` read back: when the header is `a -> b`, `a` holds no earlier `->` and the first
      digit run of `b` is the decimal text of `n`, the visit count is `n`. */
  lemma {:induction false} VisitsReadBack(a: string, b: string, pre: string, n: nat, post: string)
    requires b == pre + NatToString(n) + post
    requires forall k: nat :: k < |a| ==> !OccursAt(a + "->" + b, "->", k)
    requires !Contains(b, "->")
    requires forall i :: 0 <= i < |pre| ==> !IsDigit(pre[i])
    requires post == [] || !IsDigit(post[0])
    ensures VisitDigits(a + "->" + b).Some?
    ensures ParseDigits(VisitDigits(a + "->" + b).value) == n
  {
    var d := NatToString(n);
    var h := a + "->" + b;
    assert h == a + ("->" + b);
    assert OccursAt(h, "->", |a|) by {
      assert h[|a|..|a| + 2] == "->";
    }
    IndexOfFirst(h, "->", |a|);
    assert h[|a| + 2..] == b;
    assert SecondPiece(h, "->") == Some(b);
    FirstDigitsAfter(pre, d, post);
    ParseNatToString(n);
  }

  /** The `visits` of a candidate whose header is `a -> b`, with `a` holding no earlier `->`,
      `b` no further `->`, and the first digit run of `b` the decimal text of `n`, is `n`. */
  lemma {:induction false} CandidateVisits(content: string, sign: int, host: Host,
                                           a: string, b: string, pre: string, n: nat, post: string)
    requires ParseLine(content, sign, host).Success? && ParseLine(content, sign, host).value.Some?
    requires ParseLine(content, sign, host).value.value.Candidate?
    requires FindPv(content).Some? && content[..FindPv(content).value] == a + "->" + b
    requires b == pre + NatToString(n) + post
    requires forall k: nat :: k < |a| ==> !OccursAt(a + "->" + b, "->", k)
    requires !Contains(b, "->")
    requires forall i :: 0 <= i < |pre| ==> !IsDigit(pre[i])
    requires post == [] || !IsDigit(post[0])
    ensures ParseLine(content, sign, host).value.value.visits == n
  {
    CandidateFields(content, sign, host);
    VisitsReadBack(a, b, pre, n, post);
  }

  /** The first digit run of `pre + d + post`, when `pre` has no digit and `d` is a whole run. */
  lemma FirstDigitsAfter(pre: string, d: string, post: string)
    requires |d| > 0 && AllDigits(d)
    requires forall i :: 0 <= i < |pre| ==> !IsDigit(pre[i])
    requires post == [] || !IsDigit(post[0])
    ensures FirstDigits(pre + d + post) == Some(d)
  {
    var s := pre + d + post;
    assert FirstDigit(s) == |pre| by {
      assert s[|pre|] == d[0];
      assert forall i :: 0 <= i < |pre| ==> s[i] == pre[i];
    }
    assert s[|pre|..] == d + post;
    DigitRunIs(d + post, |d|);
    assert (d + post)[..|d|] == d;
  }

  lemma {:induction false} DigitRunIs(s: string, n: nat)
    requires n <= |s| && AllDigits(s[..n])
    requires n < |s| ==> !IsDigit(s[n])
    ensures DigitRun(s) == n
    decreases n
  {
    if n > 0 {
      assert IsDigit(s[..n][0]);
      assert s[1..][..n - 1] == s[..n][1..];
      DigitRunIs(s[1..], n - 1);
    }
  }
}
