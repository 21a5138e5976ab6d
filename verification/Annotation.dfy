/** The annotation step of review.js (`reviewOneStep`, lines 171-186): the first surviving
    record gives the winrate, every later record becomes one `GOPV` line, the winrate is
    turned into Black's for a White node, and the tree gets `SBKV` on the parent and `GOPV`
    on the analysed node. */
module Annotation {
  import opened Wrappers
  import opened Text
  import opened GameTree
  import opened SideToMove
  import opened AnalysisParser

  /** `if (sign < 0) winrate = 100 - winrate`: the winrate recorded is Black's. A White node
      (sign -1) gets the complement; a Black node and a node without a move (sign 0) keep it. */
  function BlackWinrate(winrate: real, sign: int): (w: real)
    ensures sign < 0 ==> w + winrate == 100.0
    ensures sign >= 0 ==> w == winrate
  {
    if sign < 0 then 100.0 - winrate else winrate
  }

  /** `x.variation.map(x => sgf.stringifyVertex(x).toUpperCase())`. */
  function VertexTexts(variation: seq<Vertex>, host: Host): (r: seq<string>)
    ensures |r| == |variation|
    ensures forall k :: 0 <= k < |r| ==> r[k] == UpperAscii(host.stringifyVertex(variation[k]))
  {
    seq(|variation|, k requires 0 <= k < |variation| => UpperAscii(host.stringifyVertex(variation[k])))
  }

  /** The words of a `GOPV` line before the variation. */
  function HeaderFields(sign: int, visits: nat, winrate: real, prior: real, host: Host): seq<string> {
    ["sign", IntToString(sign), "visits", NatToString(visits),
     "winrate", host.numberText(winrate), "prior", host.numberText(prior), "pv"]
  }

  /** One `GOPV` line (review.js:176-177):
      `"sign " + sign + " visits " + visits + " winrate " + winrate + " prior " + prior + " pv " + moves`.
      An "NN eval" record has no `variation`, and formatting it throws. */
  function GopvLine(sign: int, r: Record, host: Host): (l: Result<string, ReviewError>)
    ensures l.Failure? <==> r.Evaluation?
    ensures l.Failure? ==> l.error == EvaluationAfterFirst
  {
    match r
    case Evaluation(_) => Failure(EvaluationAfterFirst)
    case Candidate(_, prior, winrate, visits, variation, _) =>
      Success(Join(HeaderFields(sign, visits, winrate, prior, host), " ") + " " + Join(VertexTexts(variation, host), " "))
  }

  /** A `GOPV` line reads back: when the number texts and the vertex names are non-empty and
      free of white space and the variation is not empty, splitting the line at white space
      gives the header words and then the moves, and its fourth word is the visit count. */
  lemma GopvReadBack(sign: int, r: Record, host: Host)
    requires r.Candidate? && |r.variation| > 0
    requires |host.numberText(r.winrate)| > 0 && NoSpace(host.numberText(r.winrate))
    requires |host.numberText(r.prior)| > 0 && NoSpace(host.numberText(r.prior))
    requires forall k :: 0 <= k < |r.variation| ==>
               |host.stringifyVertex(r.variation[k])| > 0 && NoSpace(UpperAscii(host.stringifyVertex(r.variation[k])))
    ensures SplitOnSpaceRuns(GopvLine(sign, r, host).value) ==
              HeaderFields(sign, r.visits, r.winrate, r.prior, host) + VertexTexts(r.variation, host)
    ensures ParseDigits(SplitOnSpaceRuns(GopvLine(sign, r, host).value)[3]) == r.visits
  {
    var head := HeaderFields(sign, r.visits, r.winrate, r.prior, host);
    var moves := VertexTexts(r.variation, host);
    HeaderWords(sign, r.visits, r.winrate, r.prior, host);
    GopvWords(head, moves);
    assert GopvLine(sign, r, host).value == Join(head + moves, " ");
    assert (head + moves)[3] == NatToString(r.visits);
    ParseNatToString(r.visits);
  }

  /** The line is the single-space join of header and moves, and splits back into them. */
  lemma GopvWords(head: seq<string>, moves: seq<string>)
    requires |head| > 0 && |moves| > 0
    requires forall i :: 0 <= i < |head| ==> |head[i]| > 0 && NoSpace(head[i])
    requires forall i :: 0 <= i < |moves| ==> |moves[i]| > 0 && NoSpace(moves[i])
    ensures Join(head, " ") + " " + Join(moves, " ") == Join(head + moves, " ")
    ensures SplitOnSpaceRuns(Join(head + moves, " ")) == head + moves
  {
    JoinAppend(head, moves, " ");
    WordsOfConcat(head, moves);
    SplitJoin(head + moves);
  }

  /** The header words are non-empty and free of white space when the number texts are. */
  lemma HeaderWords(sign: int, visits: nat, winrate: real, prior: real, host: Host)
    requires |host.numberText(winrate)| > 0 && NoSpace(host.numberText(winrate))
    requires |host.numberText(prior)| > 0 && NoSpace(host.numberText(prior))
    ensures var h := HeaderFields(sign, visits, winrate, prior, host);
            forall i :: 0 <= i < |h| ==> |h[i]| > 0 && NoSpace(h[i])
  {
    var d := NatToString(visits);
    assert forall i :: 0 <= i < |d| ==> !IsSpace(d[i]) by {
      assert AllDigits(d);
    }
  }

  lemma WordsOfConcat(a: seq<string>, b: seq<string>)
    requires forall i :: 0 <= i < |a| ==> |a[i]| > 0 && NoSpace(a[i])
    requires forall i :: 0 <= i < |b| ==> |b[i]| > 0 && NoSpace(b[i])
    ensures forall i :: 0 <= i < |a + b| ==> |(a + b)[i]| > 0 && NoSpace((a + b)[i])
  {
  }

  /** The `.map` at review.js:175-178: every record formatted, in order; the first "NN eval"
      record among them throws. */
  function GopvLines(records: seq<Record>, sign: int, host: Host): (r: Result<seq<string>, ReviewError>)
    ensures r.Success? <==> forall k :: 0 <= k < |records| ==> records[k].Candidate?
    ensures r.Success? ==> |r.value| == |records|
    ensures r.Success? ==> forall k :: 0 <= k < |records| ==> r.value[k] == GopvLine(sign, records[k], host).value
    ensures r.Failure? ==> r.error == EvaluationAfterFirst
    decreases |records|
  {
    if records == [] then Success([])
    else
      match GopvLine(sign, records[0], host)
      case Failure(e) => Failure(e)
      case Success(line) =>
        match GopvLines(records[1..], sign, host)
        case Failure(e) => Failure(e)
        case Success(lines) => Success([line] + lines)
  }

  /** What the review writes for one node: `SBKV` (on the parent) and `GOPV` (on the node). */
  datatype Edit = Edit(sbkv: string, gopv: seq<string>)

  /** review.js:171-181: `analysis[0].winrate` (a throw when no record survived), made Black's
      and written with `toFixed(2)`; the other records, in log order, as `GOPV` lines. */
  function Summarize(records: seq<Record>, sign: int, host: Host): (r: Result<Edit, ReviewError>)
    ensures records == [] ==> r == Failure(NoRecord)
    ensures r.Success? <==> |records| > 0 && forall k :: 1 <= k < |records| ==> records[k].Candidate?
    ensures r.Success? ==> r.value.sbkv == host.toFixed2(BlackWinrate(records[0].winrate, sign))
    ensures r.Success? ==> |r.value.gopv| == |records| - 1
    ensures r.Success? ==>
              forall k :: 1 <= k < |records| ==> r.value.gopv[k - 1] == GopvLine(sign, records[k], host).value
  {
    if records == [] then Failure(NoRecord)
    else
      var winrate := records[0].winrate;
      match GopvLines(records[1..], sign, host)
      case Failure(e) => Failure(e)
      case Success(lines) => Success(Edit(host.toFixed2(BlackWinrate(winrate, sign)), lines))
  }

  /** The `tree.mutate` at review.js:183-186: `SBKV` of the parent becomes the one-element
      list of the winrate text and `GOPV` of the node becomes the lines; no other property
      of any node changes and no node is added or removed. */
  function ApplyEdit(m: PropertyMap, parent: NodeId, node: NodeId, edit: Edit): (r: PropertyMap)
    ensures r.Keys == m.Keys
    ensures parent in m ==> "SBKV" in r[parent] && r[parent]["SBKV"] == [edit.sbkv]
    ensures node in m ==> "GOPV" in r[node] && r[node]["GOPV"] == edit.gopv
    ensures forall i :: i in m && i != parent && i != node ==> r[i] == m[i]
    ensures forall i :: i in m ==>
              r[i].Keys == m[i].Keys + (if i == parent then {"SBKV"} else {}) + (if i == node then {"GOPV"} else {})
    ensures forall i, p :: i in m && p in m[i] && (i, p) != (parent, "SBKV") && (i, p) != (node, "GOPV") ==>
              r[i][p] == m[i][p]
  {
    var m1 := UpdateProperty(m, parent, "SBKV", [edit.sbkv]);
    UpdateProperty(m1, node, "GOPV", edit.gopv)
  }

  /** The deterministic part of `reviewOneStep` for one node (review.js:103-186): the side to
      move from the node's properties, the tagged log texts parsed with that sign, the
      summary, and the edit. The first throw on the way is the result. */
  function ReviewStep(m: PropertyMap, parent: NodeId, node: Node, contents: seq<string>, host: Host)
    : (r: Result<PropertyMap, ReviewError>)
    ensures r.Success? <==>
              ParseAll(contents, SideSign(node.data), host).Success?
              && Summarize(ParseAll(contents, SideSign(node.data), host).value, SideSign(node.data), host).Success?
    ensures r.Success? ==> r.value.Keys == m.Keys
    ensures r.Success? ==> forall i :: i in m && i != parent && i != node.id ==> r.value[i] == m[i]
  {
    var sign := SideSign(node.data);
    match ParseAll(contents, sign, host)
    case Failure(e) => Failure(e)
    case Success(records) =>
      match Summarize(records, sign, host)
      case Failure(e) => Failure(e)
      case Success(edit) => Success(ApplyEdit(m, parent, node.id, edit))
  }

  /** A node whose tagged log yields no record at all makes the review throw. */
  lemma NoRecordThrows(m: PropertyMap, parent: NodeId, node: Node, contents: seq<string>, host: Host)
    requires ParseAll(contents, SideSign(node.data), host) == Success([])
    ensures ReviewStep(m, parent, node, contents, host) == Failure(NoRecord)
  {
  }
}
