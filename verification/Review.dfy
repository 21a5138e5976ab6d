/** The state the review driver keeps and updates step by step (review.js): the sign of the
    side being analysed and the outstanding `lz-analyze` command (`this.sign`,
    `this.analyze_command`), and the application's console log, whose entries are objects
    that the driver changes in place. */
module Review {
  import opened Wrappers
  import opened Text
  import opened GameTree
  import opened SideToMove
  import opened AnalysisParser
  import opened Annotation

  /** A GTP command `{name, args}`. */
  datatype Command = Command(name: string, args: seq<string>)

  /** `this.analyze_command`: the `lz-analyze` command and the id of the node it analyses. */
  datatype AnalyzeCommand = AnalyzeCommand(name: string, args: seq<string>, id: NodeId)

  /** The `response` of a log entry: its text and whether it is internal. */
  datatype Response = Response(content: string, internal: bool)

  /** One console log entry. Its sign, engine name, command and `analyze_command` tag are
      fixed when it is made; its response and `waiting` flag are changed in place. */
  class LogEntry {
    const sign: int
    const name: string
    const command: Option<Command>
    const analyzeCommand: Option<AnalyzeCommand>
    var response: Option<Response>
    var waiting: bool

    constructor (sign: int, name: string, command: Option<Command>, analyzeCommand: Option<AnalyzeCommand>,
                 response: Option<Response>, waiting: bool)
      ensures this.sign == sign && this.name == name && this.command == command
      ensures this.analyzeCommand == analyzeCommand && this.response == response && this.waiting == waiting
    {
      this.sign := sign;
      this.name := name;
      this.command := command;
      this.analyzeCommand := analyzeCommand;
      this.response := response;
      this.waiting := waiting;
    }
  }

  function Min(a: int, b: int): int { if a <= b then a else b }

  function Max(a: int, b: int): int { if a >= b then a else b }

  /** The old entries `consoleLog.slice(Math.max(consoleLog.length - maxLength + 1, 0))`
      keeps: the most recent `maxLength - 1` of them, in order (none when `maxLength < 1`). */
  function Retained<T>(log: seq<T>, maxLength: int): (r: seq<T>)
    ensures |r| == Min(|log|, Max(maxLength - 1, 0))
    ensures r == log[|log| - |r|..]
  {
    var start := Max(|log| - maxLength + 1, 0);
    if start <= |log| then log[start..] else []
  }

  /** review.js:214-217: the retained old entries followed by the new one. */
  function BoundedAppend<T>(log: seq<T>, e: T, maxLength: int): (r: seq<T>)
    ensures |r| == Min(|log| + 1, Max(maxLength, 1))
    ensures r[|r| - 1] == e
    ensures r[..|r| - 1] == log[|log| - (|r| - 1)..]
    ensures r == Retained(log, maxLength) + [e]
  {
    var kept := Retained(log, maxLength);
    assert (kept + [e])[..|kept|] == kept;
    kept + [e]
  }

  /** A log no longer than the bound stays within it, and a log shorter than the bound loses
      nothing. */
  lemma BoundedAppendKeepsBound<T>(log: seq<T>, e: T, maxLength: int)
    ensures |log| <= Max(maxLength, 1) ==> |BoundedAppend(log, e, maxLength)| <= Max(maxLength, 1)
    ensures |log| < maxLength ==> BoundedAppend(log, e, maxLength) == log + [e]
  {
    var r := BoundedAppend(log, e, maxLength);
    if |log| < maxLength {
      assert r[..|r| - 1] == log;
      assert r == r[..|r| - 1] + [r[|r| - 1]];
    }
  }

  /** The entry is tagged with an `analyze_command` for node `id`. */
  predicate TaggedWith(e: LogEntry, id: NodeId) {
    e.analyzeCommand.Some? && e.analyzeCommand.value.id == id
  }

  /** The filter at review.js:126: the entries tagged for node `id`, in log order. */
  function Tagged(log: seq<LogEntry>, id: NodeId): (r: seq<LogEntry>)
    ensures |r| <= |log|
    ensures forall e :: e in r ==> e in log && TaggedWith(e, id)
    decreases |log|
  {
    if log == [] then []
    else if TaggedWith(log[|log| - 1], id) then Tagged(log[..|log| - 1], id) + [log[|log| - 1]]
    else Tagged(log[..|log| - 1], id)
  }

  /** The filter drops no entry tagged for the node. */
  lemma {:induction false} TaggedComplete(log: seq<LogEntry>, id: NodeId)
    ensures forall e :: e in log && TaggedWith(e, id) ==> e in Tagged(log, id)
    decreases |log|
  {
    if log != [] {
      var front := log[..|log| - 1];
      TaggedComplete(front, id);
      assert log == front + [log[|log| - 1]];
    }
  }

  /** No entry object occurs twice in the log: every entry is a new object literal. */
  predicate DistinctEntries(log: seq<LogEntry>) {
    forall i, j :: 0 <= i < j < |log| ==> log[i] != log[j]
  }

  /** The filter keeps entries distinct. */
  lemma {:induction false} TaggedDistinct(log: seq<LogEntry>, id: NodeId)
    requires DistinctEntries(log)
    ensures DistinctEntries(Tagged(log, id))
    decreases |log|
  {
    if log != [] {
      var front := log[..|log| - 1];
      var last := log[|log| - 1];
      assert DistinctEntries(front);
      TaggedDistinct(front, id);
      assert last !in front;
    }
  }

  /** Filtering keeps log order: the tagged entries of `a + b` are those of `a`, then those of `b`. */
  lemma {:induction false} TaggedAppend(a: seq<LogEntry>, b: seq<LogEntry>, id: NodeId)
    ensures Tagged(a + b, id) == Tagged(a, id) + Tagged(b, id)
    decreases |b|
  {
    if b == [] {
      assert a + b == a;
    } else {
      var b' := b[..|b| - 1];
      assert (a + b)[..|a + b| - 1] == a + b';
      assert (a + b)[|a + b| - 1] == b[|b| - 1];
      TaggedAppend(a, b', id);
    }
  }

  /** The texts of entries that all carry a response. */
  function Contents(es: seq<LogEntry>): (r: seq<string>)
    reads set e | e in es
    requires forall e :: e in es ==> e.response.Some?
    ensures |r| == |es|
    ensures forall j :: 0 <= j < |es| ==> r[j] == es[j].response.value.content
    decreases |es|
  {
    if es == [] then []
    else Contents(es[..|es| - 1]) + [es[|es| - 1].response.value.content]
  }

  /** The flags of entries that all carry a response: whether the response is internal, and
      whether the entry is still waiting. */
  function Flags(es: seq<LogEntry>): (r: seq<(bool, bool)>)
    reads set e | e in es
    requires forall e :: e in es ==> e.response.Some?
    ensures |r| == |es|
    ensures forall j :: 0 <= j < |es| ==> r[j] == (es[j].response.value.internal, es[j].waiting)
    decreases |es|
  {
    if es == [] then []
    else Flags(es[..|es| - 1]) + [(es[|es| - 1].response.value.internal, es[|es| - 1].waiting)]
  }

  /** `n` entries made by the stderr handler: internal, and waiting for nothing. */
  function HandlerFlags(n: nat): (r: seq<(bool, bool)>)
    ensures |r| == n && forall j :: 0 <= j < n ==> r[j] == (true, false)
  {
    seq(n, _ => (true, false))
  }

  /** The entries hold the texts `texts`, in order, as internal responses, as the stderr
      handler makes them (review.js:58), and wait for nothing. */
  predicate HoldTexts(es: seq<LogEntry>, texts: seq<string>)
    reads set e | e in es
  {
    && |es| == |texts|
    && forall i :: 0 <= i < |es| ==> es[i].response == Some(Response(texts[i], true)) && !es[i].waiting
  }

  /** Holding texts one run after the other is holding the joined texts. */
  lemma HoldTextsAppend(a: seq<LogEntry>, ta: seq<string>, b: seq<LogEntry>, tb: seq<string>)
    requires HoldTexts(a, ta) && HoldTexts(b, tb)
    ensures HoldTexts(a + b, ta + tb)
  {
    forall i | 0 <= i < |a + b|
      ensures (a + b)[i].response == Some(Response((ta + tb)[i], true)) && !(a + b)[i].waiting
    {
      if i < |a| {
        assert (a + b)[i] == a[i] && (ta + tb)[i] == ta[i];
      } else {
        assert (a + b)[i] == b[i - |a|] && (ta + tb)[i] == tb[i - |a|];
      }
    }
  }

  /** Entries holding the texts `texts` have these texts. */
  lemma ContentsOfTexts(es: seq<LogEntry>, texts: seq<string>)
    requires HoldTexts(es, texts)
    ensures forall e :: e in es ==> e.response.Some?
    ensures Contents(es) == texts
  {
    forall e | e in es
      ensures e.response.Some?
    {
      var i :| 0 <= i < |es| && es[i] == e;
    }
  }

  /** The texts after the trim at review.js:128: the first `Reach` of them, up to and
      including the first that throws, are trimmed and the rest are as they were. */
  function TrimReached(texts: seq<string>, sign: int, host: Host): (r: seq<string>)
    ensures |r| == |texts|
    ensures forall j :: 0 <= j < |texts| ==>
              r[j] == if j < Reach(texts, sign, host) then Trim(texts[j]) else texts[j]
  {
    seq(|texts|, j requires 0 <= j < |texts| => if j < Reach(texts, sign, host) then Trim(texts[j]) else texts[j])
  }

  /** The texts of two runs of entries are the texts of the first, then those of the second. */
  lemma ContentsAppend(a: seq<LogEntry>, b: seq<LogEntry>)
    requires forall x :: x in a ==> x.response.Some?
    requires forall x :: x in b ==> x.response.Some?
    ensures Contents(a + b) == Contents(a) + Contents(b)
  {
    var l := Contents(a + b);
    var r := Contents(a) + Contents(b);
    forall j | 0 <= j < |l|
      ensures l[j] == r[j]
    {
      if j < |a| {
        assert (a + b)[j] == a[j];
      } else {
        assert (a + b)[j] == b[j - |a|];
      }
    }
  }

  /** Entries that all carry the tag `tag` are all kept by the filter for its node and all
      dropped by the filter for any other node. */
  lemma {:induction false} TaggedUniform(es: seq<LogEntry>, id: NodeId, tag: Option<AnalyzeCommand>)
    requires forall i :: 0 <= i < |es| ==> es[i].analyzeCommand == tag
    ensures tag.Some? && tag.value.id == id ==> Tagged(es, id) == es
    ensures !(tag.Some? && tag.value.id == id) ==> Tagged(es, id) == []
    decreases |es|
  {
    if es != [] {
      var front := es[..|es| - 1];
      assert es == front + [es[|es| - 1]];
      TaggedUniform(front, id, tag);
    }
  }

  /** Every entry of the bounded log is an old entry or the new one. */
  lemma BoundedAppendFrom<T>(log: seq<T>, e: T, maxLength: int, x: T)
    requires x in BoundedAppend(log, e, maxLength)
    ensures x in log || x == e
  {
    var r := BoundedAppend(log, e, maxLength);
    var k :| 0 <= k < |r| && r[k] == x;
    if k < |r| - 1 {
      assert x == r[..|r| - 1][k];
    }
  }

  /** The texts of the stderr lines the handler keeps, in order: the non-empty ones. */
  function NonEmpty(lines: seq<string>): (r: seq<string>)
    ensures |r| <= |lines|
    ensures forall l :: l in r <==> l in lines && l != []
    ensures |lines| == 1 ==> r == if lines[0] == [] then [] else lines
    decreases |lines|
  {
    if lines == [] then []
    else
      var front := lines[..|lines| - 1];
      var last := lines[|lines| - 1];
      assert lines == front + [last];
      NonEmpty(front) + (if last == [] then [] else [last])
  }

  /** The handler keeps the order of the lines: the kept lines of `a + b` are the kept lines
      of `a`, then those of `b`. */
  lemma {:induction false} NonEmptyAppend(a: seq<string>, b: seq<string>)
    ensures NonEmpty(a + b) == NonEmpty(a) + NonEmpty(b)
    decreases |b|
  {
    if b == [] {
      assert a + b == a;
    } else {
      var front := b[..|b| - 1];
      var last := b[|b| - 1];
      assert (a + b)[..|a + b| - 1] == a + front;
      assert (a + b)[|a + b| - 1] == last;
      NonEmptyAppend(a, front);
    }
  }

  /** The entry was made by the stderr handler (review.js:52-57) with this sign, engine name
      and `analyze_command` tag: it carries no command. */
  predicate MadeByStderr(e: LogEntry, sign: int, name: string, tag: Option<AnalyzeCommand>) {
    e.sign == sign && e.name == name && e.command.None? && e.analyzeCommand == tag
  }

  /** The log after the exchange for one node, from the log `before`: the old entries the
      bounded append of the command kept, the untagged entry of the command `cmd`, then
      entries made by the stderr handler with `sign` and the tag `tag`. */
  predicate AfterExchange(log: seq<LogEntry>, before: seq<LogEntry>, maxLength: int, cmd: Command, sign: int,
                          name: string, tag: AnalyzeCommand)
  {
    var k := |Retained(before, maxLength)|;
    && k < |log|
    && log[..k] == Retained(before, maxLength)
    && log[k].sign == 0 && log[k].name == name && log[k].command == Some(cmd) && log[k].analyzeCommand.None?
    && forall i :: k < i < |log| ==> MadeByStderr(log[i], sign, name, Some(tag))
  }

  /** Appending an untagged entry with the bound leaves, tagged for any node, exactly the
      entries tagged for it among the old entries the bound kept. */
  lemma BoundedAppendTagged(log: seq<LogEntry>, entry: LogEntry, maxLength: int, id: NodeId)
    requires entry.analyzeCommand.None?
    ensures Tagged(BoundedAppend(log, entry, maxLength), id) == Tagged(Retained(log, maxLength), id)
  {
    TaggedAppend(Retained(log, maxLength), [entry], id);
    TaggedUniform([entry], id, None);
  }

  /** The log the exchange leaves: the entries the bounded append of the command's entry
      kept, that entry, then entries made by the stderr handler with the node's tag. */
  lemma ExchangeShape(log: seq<LogEntry>, before: seq<LogEntry>, maxLength: int, entry: LogEntry,
                      added: seq<LogEntry>, texts: seq<string>, cmd: Command, sign: int, name: string,
                      tag: AnalyzeCommand)
    requires log == BoundedAppend(before, entry, maxLength) + added
    requires entry.sign == 0 && entry.name == name && entry.command == Some(cmd) && entry.analyzeCommand.None?
    requires forall i :: 0 <= i < |added| ==> MadeByStderr(added[i], sign, name, Some(tag))
    requires HoldTexts(added, texts)
    ensures AfterExchange(log, before, maxLength, cmd, sign, name, tag)
    ensures log[|Retained(before, maxLength)|] == entry
    ensures log[|Retained(before, maxLength)| + 1..] == added
    ensures forall i :: |Retained(before, maxLength)| < i < |log| ==>
              log[i].response.Some? && log[i].response.value.internal && !log[i].waiting
    ensures Contents(log[|Retained(before, maxLength)| + 1..]) == texts
  {
    var kept := Retained(before, maxLength);
    assert log == kept + [entry] + added;
    assert log[..|kept|] == kept;
    forall i | |kept| < i < |log|
      ensures MadeByStderr(log[i], sign, name, Some(tag))
      ensures log[i].response.Some? && log[i].response.value.internal && !log[i].waiting
    {
      assert log[i] == added[i - |kept| - 1];
    }
    assert log[|kept| + 1..] == added;
    ContentsOfTexts(added, texts);
  }

  /** After the exchange, the entries tagged for the node are the ones tagged for it among the
      kept old entries, then every entry the stderr handler made. */
  lemma ExchangeTagged(log: seq<LogEntry>, before: seq<LogEntry>, maxLength: int, cmd: Command, sign: int,
                       name: string, tag: AnalyzeCommand)
    requires AfterExchange(log, before, maxLength, cmd, sign, name, tag)
    ensures Tagged(log, tag.id) ==
              Tagged(Retained(before, maxLength), tag.id) + log[|Retained(before, maxLength)| + 1..]
  {
    var k := |Retained(before, maxLength)|;
    assert forall i :: k < i < |log| ==> MadeByStderr(log[i], sign, name, Some(tag));
    TaggedSplitAt(log, k, tag);
  }

  /** A log whose entry `k` is untagged and whose later entries are all tagged `tag`: the
      filter for the node of `tag` keeps what it keeps before `k`, then every later entry. */
  lemma {:induction false} TaggedSplitAt(log: seq<LogEntry>, k: nat, tag: AnalyzeCommand)
    requires k < |log| && log[k].analyzeCommand.None?
    requires forall i :: k < i < |log| ==> log[i].analyzeCommand == Some(tag)
    ensures Tagged(log, tag.id) == Tagged(log[..k], tag.id) + log[k + 1..]
    decreases |log|
  {
    var n := |log|;
    var init := log[..n - 1];
    if n == k + 1 {
      calc {
        Tagged(log, tag.id);
        Tagged(init, tag.id);
        { assert init == log[..k]; }
        Tagged(log[..k], tag.id);
        { assert log[k + 1..] == []; }
        Tagged(log[..k], tag.id) + log[k + 1..];
      }
    } else {
      calc {
        Tagged(log, tag.id);
        { assert TaggedWith(log[n - 1], tag.id); }
        Tagged(init, tag.id) + [log[n - 1]];
        { TaggedSplitAt(init, k, tag); }
        Tagged(init[..k], tag.id) + init[k + 1..] + [log[n - 1]];
        { assert init[..k] == log[..k]; }
        Tagged(log[..k], tag.id) + (init[k + 1..] + [log[n - 1]]);
        { assert init[k + 1..] + [log[n - 1]] == log[k + 1..]; }
        Tagged(log[..k], tag.id) + log[k + 1..];
      }
    }
  }

  /** After the exchange, the texts tagged for the node are the stale texts of the log before
      it, then the texts of the new stderr entries. */
  lemma ExchangeTexts(log: seq<LogEntry>, before: seq<LogEntry>, maxLength: int, cmd: Command, sign: int,
                      name: string, tag: AnalyzeCommand, texts: seq<string>)
    requires AfterExchange(log, before, maxLength, cmd, sign, name, tag)
    requires forall e :: e in log && TaggedWith(e, tag.id) ==> e.response.Some?
    requires forall i :: |Retained(before, maxLength)| < i < |log| ==> log[i].response.Some?
    requires Contents(log[|Retained(before, maxLength)| + 1..]) == texts
    ensures Tagged(log, tag.id) ==
              Tagged(Retained(before, maxLength), tag.id) + log[|Retained(before, maxLength)| + 1..]
    ensures Contents(Tagged(log, tag.id)) == StaleTexts(before, maxLength, tag.id) + texts
  {
    var kept := Retained(before, maxLength);
    assert forall e :: e in kept ==> e in log[..|kept|];
    ExchangeTagged(log, before, maxLength, cmd, sign, name, tag);
    ContentsAppend(Tagged(kept, tag.id), log[|kept| + 1..]);
  }

  /** After the exchange, the entries tagged for the node are the kept old ones, with their
      flags, then the new stderr entries, which are internal and wait for nothing. */
  lemma ExchangeFlags(log: seq<LogEntry>, before: seq<LogEntry>, maxLength: int, cmd: Command, sign: int,
                      name: string, tag: AnalyzeCommand, n: nat)
    requires AfterExchange(log, before, maxLength, cmd, sign, name, tag)
    requires forall e :: e in log && TaggedWith(e, tag.id) ==> e.response.Some?
    requires forall i :: |Retained(before, maxLength)| < i < |log| ==>
               log[i].response.Some? && log[i].response.value.internal && !log[i].waiting
    requires n == |log| - |Retained(before, maxLength)| - 1
    ensures forall e :: e in Retained(before, maxLength) && TaggedWith(e, tag.id) ==> e.response.Some?
    ensures Flags(Tagged(log, tag.id)) == Flags(Tagged(Retained(before, maxLength), tag.id)) + HandlerFlags(n)
  {
    var kept := Retained(before, maxLength);
    var tail := log[|kept| + 1..];
    assert forall e :: e in kept && TaggedWith(e, tag.id) ==> e.response.Some? by {
      KeptResponses(log, kept, tag.id);
    }
    forall i | 0 <= i < |tail|
      ensures tail[i].response.Some? && tail[i].response.value.internal && !tail[i].waiting
    {
      assert tail[i] == log[|kept| + 1 + i];
    }
    assert Tagged(log, tag.id) == Tagged(kept, tag.id) + tail by {
      ExchangeTagged(log, before, maxLength, cmd, sign, name, tag);
    }
    assert Flags(Tagged(log, tag.id)) == Flags(Tagged(kept, tag.id)) + HandlerFlags(n) by {
      assert |tail| == n;
      FlagsThenHandler(Tagged(kept, tag.id), tail);
    }
  }

  /** Entries with responses, then entries the stderr handler made: the flags of the first,
      then the handler's flags. */
  lemma FlagsThenHandler(a: seq<LogEntry>, b: seq<LogEntry>)
    requires forall x :: x in a ==> x.response.Some?
    requires forall i :: 0 <= i < |b| ==> b[i].response.Some? && b[i].response.value.internal && !b[i].waiting
    ensures forall x :: x in a + b ==> x.response.Some?
    ensures Flags(a + b) == Flags(a) + HandlerFlags(|b|)
  {
    FlagsOfHandler(b);
    FlagsAppend(a, b);
  }

  /** The entries a log starts with carry a response when tagged, if those of the log do. */
  lemma KeptResponses(log: seq<LogEntry>, kept: seq<LogEntry>, id: NodeId)
    requires |kept| <= |log| && log[..|kept|] == kept
    requires forall e :: e in log && TaggedWith(e, id) ==> e.response.Some?
    ensures forall e :: e in kept && TaggedWith(e, id) ==> e.response.Some?
  {
    forall e | e in kept && TaggedWith(e, id)
      ensures e.response.Some?
    {
      var i :| 0 <= i < |kept| && kept[i] == e;
      assert log[i] == e;
    }
  }

  /** Entries that are all internal and wait for nothing have the stderr handler's flags. */
  lemma FlagsOfHandler(es: seq<LogEntry>)
    requires forall i :: 0 <= i < |es| ==> es[i].response.Some? && es[i].response.value.internal && !es[i].waiting
    ensures forall e :: e in es ==> e.response.Some?
    ensures Flags(es) == HandlerFlags(|es|)
  {
  }

  /** The flags of two runs of entries are the flags of the first, then those of the second. */
  lemma FlagsAppend(a: seq<LogEntry>, b: seq<LogEntry>)
    requires forall x :: x in a ==> x.response.Some?
    requires forall x :: x in b ==> x.response.Some?
    ensures Flags(a + b) == Flags(a) + Flags(b)
  {
    var l := Flags(a + b);
    var r := Flags(a) + Flags(b);
    forall j | 0 <= j < |l|
      ensures l[j] == r[j]
    {
      if j < |a| {
        assert (a + b)[j] == a[j];
      } else {
        assert (a + b)[j] == b[j - |a|];
      }
    }
  }

  /** After the exchange, the entries tagged for the node hold the stale texts, then the new
      texts; the stale ones keep their flags and the new ones are internal and not waiting. */
  lemma ExchangeEntries(log: seq<LogEntry>, before: seq<LogEntry>, maxLength: int, cmd: Command, sign: int,
                        name: string, tag: AnalyzeCommand, texts: seq<string>)
    requires AfterExchange(log, before, maxLength, cmd, sign, name, tag)
    requires forall e :: e in log && TaggedWith(e, tag.id) ==> e.response.Some?
    requires forall i :: |Retained(before, maxLength)| < i < |log| ==>
               log[i].response.Some? && log[i].response.value.internal && !log[i].waiting
    requires Contents(log[|Retained(before, maxLength)| + 1..]) == texts
    ensures forall e :: e in Retained(before, maxLength) && TaggedWith(e, tag.id) ==> e.response.Some?
    ensures Contents(Tagged(log, tag.id)) == StaleTexts(before, maxLength, tag.id) + texts
    ensures Flags(Tagged(log, tag.id)) == Flags(Tagged(Retained(before, maxLength), tag.id)) + HandlerFlags(|texts|)
  {
    ExchangeTexts(log, before, maxLength, cmd, sign, name, tag, texts);
    ExchangeFlags(log, before, maxLength, cmd, sign, name, tag, |texts|);
  }

  /** After the exchange, an entry tagged for any other node is an old one. */
  lemma ExchangeKeepsOtherTags(log: seq<LogEntry>, before: seq<LogEntry>, maxLength: int, cmd: Command, sign: int,
                               name: string, tag: AnalyzeCommand)
    requires AfterExchange(log, before, maxLength, cmd, sign, name, tag)
    ensures forall e :: e in log && e.analyzeCommand.Some? && e.analyzeCommand.value.id != tag.id ==> e in before
  {
    var kept := Retained(before, maxLength);
    var k := |kept|;
    forall e | e in log && e.analyzeCommand.Some? && e.analyzeCommand.value.id != tag.id
      ensures e in before
    {
      var i :| 0 <= i < |log| && log[i] == e;
      if i < k {
        assert e == log[..k][i];
      }
    }
  }

  /** The texts of the entries tagged for node `id` that the bounded append of the next
      command keeps: left in the log by an earlier analysis of the same node, they are read
      again, before the new ones, by the filter at review.js:126. */
  function StaleTexts(log: seq<LogEntry>, maxLength: int, id: NodeId): (r: seq<string>)
    reads set e | e in log
    requires forall e :: e in Retained(log, maxLength) && TaggedWith(e, id) ==> e.response.Some?
    ensures |r| <= |log|
  {
    Contents(Tagged(Retained(log, maxLength), id))
  }

  /** A node analysed for the first time, with no entry tagged for it, has no stale texts. */
  lemma FirstAnalysisHasNoStaleTexts(log: seq<LogEntry>, maxLength: int, id: NodeId)
    requires forall e :: e in log ==> !TaggedWith(e, id)
    ensures StaleTexts(log, maxLength, id) == []
  {
    TaggedNone(Retained(log, maxLength), id);
  }

  /** A log without an entry tagged for `id` has nothing for the filter to keep. */
  lemma {:induction false} TaggedNone(log: seq<LogEntry>, id: NodeId)
    requires forall e :: e in log ==> !TaggedWith(e, id)
    ensures Tagged(log, id) == []
    decreases |log|
  {
    if log != [] {
      TaggedNone(log[..|log| - 1], id);
    }
  }

  /** The review driver of one engine (`class ReviewEngine`). */
  class ReviewEngine {
    const engineName: string
    var busy: bool
    var sign: int
    var analyzeCommand: Option<AnalyzeCommand>
    /** `app.state.consoleLog`: the console log the driver shares with the application. */
    var consoleLog: seq<LogEntry>

    /** Every entry tagged with an analysis command carries a response (only the stderr
        handler tags entries, and it always gives them one), and no entry occurs twice. */
    predicate Valid()
      reads this, set e | e in consoleLog
    {
      && (forall e :: e in consoleLog && e.analyzeCommand.Some? ==> e.response.Some?)
      && DistinctEntries(consoleLog)
    }

    /** The constructor at review.js:13-19, over a log whose tagged entries carry a response
        and whose entries are distinct objects. */
    constructor (engineName: string, consoleLog: seq<LogEntry>)
      requires forall e :: e in consoleLog && e.analyzeCommand.Some? ==> e.response.Some?
      requires DistinctEntries(consoleLog)
      ensures Valid()
      ensures this.engineName == engineName && this.consoleLog == consoleLog
      ensures !busy && sign == 0 && analyzeCommand.None?
    {
      this.engineName := engineName;
      this.busy := false;
      this.sign := 0;
      this.analyzeCommand := None;
      this.consoleLog := consoleLog;
    }

    /** The `busy-changed` handler (review.js:26-28): `busy` follows the syncer's flag. */
    method SetBusy(syncerBusy: bool)
      requires Valid()
      modifies this`busy
      ensures Valid()
      ensures busy == syncerBusy
    {
      busy := syncerBusy;
    }

    /** review.js:103-110: `this.sign` becomes the side to move of the node, and the colour
        passed to `lz-analyze` is `"B"` exactly when it is 1. */
    method SetSideToMove(data: Props) returns (color: string)
      requires Valid()
      modifies this`sign
      ensures Valid()
      ensures sign == SideSign(data)
      ensures color == ColorOf(sign)
    {
      var s := ComputeSign(data);
      sign := s;
      color := if s == 1 then "B" else "W";
    }

    /** review.js:117: `analyze_command` names the node while `lz-analyze` is outstanding;
        the command sent is `lz-analyze <color> <interval>`. */
    method BeginAnalysis(id: NodeId, color: string, interval: string) returns (cmd: Command)
      requires Valid()
      modifies this`analyzeCommand
      ensures Valid()
      ensures analyzeCommand == Some(AnalyzeCommand("lz-analyze", [color, interval], id))
      ensures cmd == Command("lz-analyze", [color, interval])
    {
      analyzeCommand := Some(AnalyzeCommand("lz-analyze", [color, interval], id));
      cmd := Command("lz-analyze", [color, interval]);
    }

    /** review.js:122: once the command has been answered, nothing is tagged any more. */
    method EndAnalysis()
      requires Valid()
      modifies this`analyzeCommand
      ensures Valid()
      ensures analyzeCommand == None
    {
      analyzeCommand := None;
    }

    /** The stderr handler (review.js:49-60): an empty line is dropped; any other line is
        appended at the end of the log, without a bound, as an internal response tagged with
        the current sign and `analyze_command`. */
    method HandleStderr(content: string)
      requires Valid()
      modifies this`consoleLog
      ensures Valid()
      ensures content == [] ==> consoleLog == old(consoleLog)
      ensures content != [] ==>
                && |consoleLog| == |old(consoleLog)| + 1
                && consoleLog == old(consoleLog) + [consoleLog[|consoleLog| - 1]]
                && fresh(consoleLog[|consoleLog| - 1])
                && consoleLog[|consoleLog| - 1].sign == sign
                && consoleLog[|consoleLog| - 1].name == engineName
                && consoleLog[|consoleLog| - 1].command.None?
                && consoleLog[|consoleLog| - 1].analyzeCommand == analyzeCommand
                && consoleLog[|consoleLog| - 1].response == Some(Response(content, true))
                && !consoleLog[|consoleLog| - 1].waiting
    {
      if |content| == 0 {
        return;
      }
      var entry := new LogEntry(sign, engineName, None, analyzeCommand, Some(Response(content, true)), false);
      consoleLog := consoleLog + [entry];
    }

    /** `handleCommandSent` (review.js:204-218): a new untagged entry for the command, waiting
        for its response, appended with the log bounded by `maxLength`. */
    method HandleCommandSent(command: Command, maxLength: int) returns (entry: LogEntry)
      requires Valid()
      modifies this`consoleLog
      ensures Valid()
      ensures fresh(entry)
      ensures entry.sign == 0 && entry.name == engineName && entry.command == Some(command)
      ensures entry.analyzeCommand.None? && entry.response.None? && entry.waiting
      ensures consoleLog == BoundedAppend(old(consoleLog), entry, maxLength)
    {
      entry := new LogEntry(0, engineName, Some(command), None, None, true);
      var newLog := Retained(consoleLog, maxLength);
      newLog := newLog + [entry];
      consoleLog := newLog;
    }

    /** `updateEntry` with a subscriber's update (review.js:220-228): `Object.assign` puts a
        copy of the response on the entry and sets `waiting` to `!end`. */
    method UpdateEntry(entry: LogEntry, response: Response, end: bool)
      requires Valid()
      modifies entry
      ensures Valid()
      ensures entry.response == Some(response) && entry.waiting == !end
    {
      entry.response := Some(response);
      entry.waiting := !end;
    }

    /** The stderr lines the engine prints, one call of the handler each, the earlier lines
        first: the log becomes the old log followed by `added`, one new entry per non-empty
        line, in order, each made with the current sign and tag and holding its line as an
        internal response. */
    method ReceiveStderr(lines: seq<string>) returns (ghost added: seq<LogEntry>)
      requires Valid()
      modifies this`consoleLog
      ensures Valid()
      ensures consoleLog == old(consoleLog) + added
      ensures forall i :: 0 <= i < |added| ==> fresh(added[i]) && MadeByStderr(added[i], sign, engineName, analyzeCommand)
      ensures HoldTexts(added, NonEmpty(lines))
      decreases |lines|
    {
      if lines == [] {
        return [];
      }
      var front, last := lines[..|lines| - 1], lines[|lines| - 1];
      ghost var prev := ReceiveStderr(front);
      ghost var log1 := consoleLog;
      HandleStderr(last);
      assert NonEmpty(lines) == NonEmpty(front) + (if last == [] then [] else [last]);
      if last == [] {
        added := prev;
      } else {
        var e := consoleLog[|log1|];
        added := prev + [e];
        assert HoldTexts([e], [last]);
        HoldTextsAppend(prev, NonEmpty(front), [e], [last]);
      }
      forall i | 0 <= i < |added|
        ensures fresh(added[i]) && MadeByStderr(added[i], sign, engineName, analyzeCommand)
      {
        if i < |prev| {
          assert added[i] == prev[i];
        }
      }
    }

    /** review.js:125-169: the entries tagged for node `id`, in log order, are trimmed in place
        and parsed one by one; the first throw stops the walk. The result is the parse of
        their texts as they were; the entries the walk reached hold their trimmed text and
        the others are untouched. Parsing reads only the texts, so the texts are parsed
        first and the reached entries trimmed after, with the same outcome. */
    method CollectAnalysis(id: NodeId, sign: int, host: Host) returns (r: Result<seq<Record>, ReviewError>)
      requires Valid()
      modifies set e | e in Tagged(consoleLog, id)
      ensures Valid()
      ensures r == ParseAll(old(Contents(Tagged(consoleLog, id))), sign, host)
      ensures forall j :: 0 <= j < |Tagged(consoleLog, id)| ==>
                Tagged(consoleLog, id)[j].response ==
                  Some(Response(if j < Reach(old(Contents(Tagged(consoleLog, id))), sign, host)
                                then Trim(old(Contents(Tagged(consoleLog, id)))[j])
                                else old(Contents(Tagged(consoleLog, id)))[j],
                                old(Tagged(consoleLog, id)[j].response.value.internal)))
      ensures Contents(Tagged(consoleLog, id)) == TrimReached(old(Contents(Tagged(consoleLog, id))), sign, host)
      ensures Flags(Tagged(consoleLog, id)) == old(Flags(Tagged(consoleLog, id)))
    {
      TaggedDistinct(consoleLog, id);
      r := CollectEntries(Tagged(consoleLog, id), sign, host);
    }

    /** The start of one node's analysis (review.js:103-117 and the `handleCommandSent` the
        command goes through): the sign is set, the command is tagged with the node, and its
        untagged entry is appended with the log bounded by `maxLength`. */
    method BeginNode(node: Node, interval: string, maxLength: int) returns (entry: LogEntry)
      requires Valid()
      modifies this`sign, this`analyzeCommand, this`consoleLog
      ensures Valid()
      ensures sign == SideSign(node.data)
      ensures analyzeCommand == Some(AnalyzeCommand("lz-analyze", [ColorOf(sign), interval], node.id))
      ensures fresh(entry) && entry.sign == 0 && entry.name == engineName
      ensures entry.command == Some(Command("lz-analyze", [ColorOf(sign), interval]))
      ensures entry.analyzeCommand.None? && entry.response.None? && entry.waiting
      ensures consoleLog == BoundedAppend(old(consoleLog), entry, maxLength)
    {
      var color := SetSideToMove(node.data);
      var command := BeginAnalysis(node.id, color, interval);
      entry := HandleCommandSent(command, maxLength);
    }

    /** The exchange for one node, with the engine's stderr output while `lz-analyze` runs
        given as `lines`: after `BeginNode` the output arrives and the tag is cleared
        (review.js:118-122). The log is the kept old entries, the command's entry and the new
        stderr entries, whose texts are the non-empty lines; `ExchangeTexts` then gives the
        texts tagged for the node. */
    method ListenNode(node: Node, interval: string, maxLength: int, lines: seq<string>)
      requires Valid()
      modifies this`sign, this`analyzeCommand, this`consoleLog
      ensures Valid()
      ensures sign == SideSign(node.data) && analyzeCommand.None?
      ensures AfterExchange(consoleLog, old(consoleLog), maxLength, Command("lz-analyze", [ColorOf(sign), interval]),
                            sign, engineName, AnalyzeCommand("lz-analyze", [ColorOf(sign), interval], node.id))
      ensures forall i :: |Retained(old(consoleLog), maxLength)| <= i < |consoleLog| ==> fresh(consoleLog[i])
      ensures forall i :: |Retained(old(consoleLog), maxLength)| < i < |consoleLog| ==>
                consoleLog[i].response.Some? && consoleLog[i].response.value.internal && !consoleLog[i].waiting
      ensures Contents(consoleLog[|Retained(old(consoleLog), maxLength)| + 1..]) == NonEmpty(lines)
      ensures forall e :: e in Retained(old(consoleLog), maxLength) && TaggedWith(e, node.id) ==> e.response.Some?
      ensures StaleTexts(old(consoleLog), maxLength, node.id) == old(StaleTexts(consoleLog, maxLength, node.id))
      ensures Flags(Tagged(Retained(old(consoleLog), maxLength), node.id)) ==
                old(Flags(Tagged(Retained(consoleLog, maxLength), node.id)))
    {
      var entry, added := Exchange(node, interval, maxLength, lines);
      var cmd := Command("lz-analyze", [ColorOf(sign), interval]);
      var tag := AnalyzeCommand("lz-analyze", [ColorOf(sign), interval], node.id);
      ExchangeShape(consoleLog, old(consoleLog), maxLength, entry, added, NonEmpty(lines), cmd, sign, engineName, tag);
      ghost var k := |Retained(old(consoleLog), maxLength)|;
      forall i | k <= i < |consoleLog|
        ensures fresh(consoleLog[i])
      {
        if i > k {
          assert consoleLog[i] == added[i - k - 1];
        }
      }
    }

    /** The calls of one node's exchange (review.js:103-122): `BeginNode`, the engine's stderr
        lines while the tagged command runs, then the tag cleared. The log gains the command's
        entry with the bound, then one tagged entry per non-empty line. */
    method SendAnalyze(node: Node, interval: string, maxLength: int, lines: seq<string>)
      returns (entry: LogEntry, ghost added: seq<LogEntry>)
      requires Valid()
      modifies this`sign, this`analyzeCommand, this`consoleLog
      ensures Valid()
      ensures sign == SideSign(node.data) && analyzeCommand.None?
      ensures fresh(entry) && entry.sign == 0 && entry.name == engineName
      ensures entry.command == Some(Command("lz-analyze", [ColorOf(sign), interval])) && entry.analyzeCommand.None?
      ensures consoleLog == BoundedAppend(old(consoleLog), entry, maxLength) + added
      ensures forall i :: 0 <= i < |added| ==>
                && fresh(added[i])
                && MadeByStderr(added[i], sign, engineName,
                                Some(AnalyzeCommand("lz-analyze", [ColorOf(sign), interval], node.id)))
      ensures HoldTexts(added, NonEmpty(lines))
    {
      entry := BeginNode(node, interval, maxLength);
      added := ReceiveStderr(lines);
      EndAnalysis();
    }

    /** `SendAnalyze`, and what it leaves of the old log: the entries the bound keeps are the
        same objects with the same fields, so their stale texts and flags are unchanged. */
    method Exchange(node: Node, interval: string, maxLength: int, lines: seq<string>)
      returns (entry: LogEntry, ghost added: seq<LogEntry>)
      requires Valid()
      modifies this`sign, this`analyzeCommand, this`consoleLog
      ensures Valid()
      ensures sign == SideSign(node.data) && analyzeCommand.None?
      ensures fresh(entry) && entry.sign == 0 && entry.name == engineName
      ensures entry.command == Some(Command("lz-analyze", [ColorOf(sign), interval])) && entry.analyzeCommand.None?
      ensures consoleLog == BoundedAppend(old(consoleLog), entry, maxLength) + added
      ensures forall i :: 0 <= i < |added| ==>
                && fresh(added[i])
                && MadeByStderr(added[i], sign, engineName,
                                Some(AnalyzeCommand("lz-analyze", [ColorOf(sign), interval], node.id)))
      ensures HoldTexts(added, NonEmpty(lines))
      ensures forall e :: e in Retained(old(consoleLog), maxLength) && TaggedWith(e, node.id) ==> e.response.Some?
      ensures StaleTexts(old(consoleLog), maxLength, node.id) == old(StaleTexts(consoleLog, maxLength, node.id))
      ensures Flags(Tagged(Retained(old(consoleLog), maxLength), node.id)) ==
                old(Flags(Tagged(Retained(consoleLog, maxLength), node.id)))
    {
      ghost var kept := Retained(consoleLog, maxLength);
      ghost var stale := StaleTexts(consoleLog, maxLength, node.id);
      ghost var flags := Flags(Tagged(kept, node.id));
      entry, added := SendAnalyze(node, interval, maxLength, lines);
      assert StaleTexts(old(consoleLog), maxLength, node.id) == stale && Flags(Tagged(kept, node.id)) == flags;
      KeptResponses(consoleLog, kept, node.id);
    }

    /** The analysis of one node: the exchange, then the tagged texts collected. The records
        are the parse of the stale texts followed by the non-empty stderr lines. */
    method AnalyseNode(node: Node, interval: string, maxLength: int, lines: seq<string>, host: Host)
      returns (parsed: Result<seq<Record>, ReviewError>)
      requires Valid()
      modifies this`sign, this`analyzeCommand, this`consoleLog, set e | e in consoleLog && TaggedWith(e, node.id)
      ensures Valid()
      ensures sign == SideSign(node.data) && analyzeCommand.None?
      ensures AfterExchange(consoleLog, old(consoleLog), maxLength, Command("lz-analyze", [ColorOf(sign), interval]),
                            sign, engineName, AnalyzeCommand("lz-analyze", [ColorOf(sign), interval], node.id))
      ensures forall i :: |Retained(old(consoleLog), maxLength)| <= i < |consoleLog| ==> fresh(consoleLog[i])
      ensures parsed == ParseAll(old(StaleTexts(consoleLog, maxLength, node.id)) + NonEmpty(lines), SideSign(node.data), host)
      ensures Contents(Tagged(consoleLog, node.id)) ==
                TrimReached(old(StaleTexts(consoleLog, maxLength, node.id)) + NonEmpty(lines), SideSign(node.data), host)
      ensures Flags(Tagged(consoleLog, node.id)) ==
                old(Flags(Tagged(Retained(consoleLog, maxLength), node.id))) + HandlerFlags(|NonEmpty(lines)|)
    {
      ghost var before := consoleLog;
      ListenNode(node, interval, maxLength, lines);
      forall e | e in consoleLog && TaggedWith(e, node.id)
        ensures (e in before && TaggedWith(e, node.id)) || fresh(e)
      {
        var i :| 0 <= i < |consoleLog| && consoleLog[i] == e;
        if i < |Retained(before, maxLength)| {
          assert e == consoleLog[..|Retained(before, maxLength)|][i];
        }
      }
      ghost var log1, s1 := consoleLog, sign;
      parsed := CollectExchange(node, interval, maxLength, lines, host, before);
      assert consoleLog == log1 && sign == s1;
    }

    /** The collection after the exchange for `node` from the log `before`: the texts tagged
        for the node are the stale texts of `before`, then the non-empty stderr lines. */
    method CollectExchange(node: Node, interval: string, maxLength: int, lines: seq<string>, host: Host,
                           ghost before: seq<LogEntry>)
      returns (parsed: Result<seq<Record>, ReviewError>)
      requires Valid()
      requires AfterExchange(consoleLog, before, maxLength, Command("lz-analyze", [ColorOf(sign), interval]),
                             sign, engineName, AnalyzeCommand("lz-analyze", [ColorOf(sign), interval], node.id))
      requires forall i :: |Retained(before, maxLength)| < i < |consoleLog| ==>
                 consoleLog[i].response.Some? && consoleLog[i].response.value.internal && !consoleLog[i].waiting
      requires Contents(consoleLog[|Retained(before, maxLength)| + 1..]) == NonEmpty(lines)
      modifies set e | e in consoleLog && TaggedWith(e, node.id)
      ensures Valid()
      ensures parsed == ParseAll(old(StaleTexts(before, maxLength, node.id)) + NonEmpty(lines), sign, host)
      ensures Contents(Tagged(consoleLog, node.id)) ==
                TrimReached(old(StaleTexts(before, maxLength, node.id)) + NonEmpty(lines), sign, host)
      ensures Flags(Tagged(consoleLog, node.id)) ==
                old(Flags(Tagged(Retained(before, maxLength), node.id))) + HandlerFlags(|NonEmpty(lines)|)
    {
      var cmd := Command("lz-analyze", [ColorOf(sign), interval]);
      var tag := AnalyzeCommand("lz-analyze", [ColorOf(sign), interval], node.id);
      ExchangeEntries(consoleLog, before, maxLength, cmd, sign, engineName, tag, NonEmpty(lines));
      parsed := CollectAnalysis(node.id, sign, host);
    }

    /** One node of the review (review.js:94-186): the analysis of the node followed by the
        annotation. The outcome is `ReviewStep` over the stale texts followed by the non-empty
        stderr lines, and no entry tagged for another node is added to the log. */
    method ReviewNode(m: PropertyMap, parent: NodeId, node: Node, interval: string, maxLength: int,
                      lines: seq<string>, host: Host) returns (r: Result<PropertyMap, ReviewError>)
      requires Valid()
      modifies this`sign, this`analyzeCommand, this`consoleLog, set e | e in consoleLog && TaggedWith(e, node.id)
      ensures Valid()
      ensures sign == SideSign(node.data) && analyzeCommand.None?
      ensures AfterExchange(consoleLog, old(consoleLog), maxLength, Command("lz-analyze", [ColorOf(sign), interval]),
                            sign, engineName, AnalyzeCommand("lz-analyze", [ColorOf(sign), interval], node.id))
      ensures forall i :: |Retained(old(consoleLog), maxLength)| <= i < |consoleLog| ==> fresh(consoleLog[i])
      ensures forall e :: e in consoleLog && e.analyzeCommand.Some? && e.analyzeCommand.value.id != node.id ==>
                e in old(consoleLog)
      ensures r == ReviewStep(m, parent, node, old(StaleTexts(consoleLog, maxLength, node.id)) + NonEmpty(lines), host)
      ensures Contents(Tagged(consoleLog, node.id)) ==
                TrimReached(old(StaleTexts(consoleLog, maxLength, node.id)) + NonEmpty(lines), SideSign(node.data), host)
      ensures Flags(Tagged(consoleLog, node.id)) ==
                old(Flags(Tagged(Retained(consoleLog, maxLength), node.id))) + HandlerFlags(|NonEmpty(lines)|)
    {
      ghost var before := consoleLog;
      var parsed := AnalyseNode(node, interval, maxLength, lines, host);
      ExchangeKeepsOtherTags(consoleLog, before, maxLength, Command("lz-analyze", [ColorOf(sign), interval]), sign,
                             engineName, AnalyzeCommand("lz-analyze", [ColorOf(sign), interval], node.id));
      match parsed
      case Failure(e) =>
        r := Failure(e);
      case Success(records) =>
        var summary := Summarize(records, sign, host);
        match summary
        case Failure(e) =>
          r := Failure(e);
        case Success(edit) =>
          r := Success(ApplyEdit(m, parent, node.id, edit));
    }
  }

  /** The walk of `CollectAnalysis` over the tagged entries `es`. */
  method CollectEntries(es: seq<LogEntry>, sign: int, host: Host) returns (r: Result<seq<Record>, ReviewError>)
    requires DistinctEntries(es)
    requires forall e :: e in es ==> e.response.Some?
    modifies set e | e in es
    ensures forall e :: e in es ==> e.response.Some?
    ensures r == ParseAll(old(Contents(es)), sign, host)
    ensures forall j :: 0 <= j < |es| ==>
              es[j].response ==
                Some(Response(if j < Reach(old(Contents(es)), sign, host) then Trim(old(Contents(es))[j])
                              else old(Contents(es))[j],
                              old(es[j].response.value.internal)))
    ensures forall j :: 0 <= j < |es| ==> es[j].waiting == old(es[j].waiting)
    ensures Flags(es) == old(Flags(es))
    ensures Contents(es) == TrimReached(old(Contents(es)), sign, host)
  {
    ghost var lines := Contents(es);
    ghost var flags := Flags(es);
    r := ParseAndTrim(es, sign, host);
    assert Flags(es) == flags by {
      FlagsAre(es, flags);
    }
    assert Contents(es) == TrimReached(lines, sign, host) by {
      ContentsOfReached(es, lines, Reach(lines, sign, host), sign, host);
    }
  }

  /** The parse of the texts of `es`, and the trim of the texts it read, in place. */
  method ParseAndTrim(es: seq<LogEntry>, sign: int, host: Host) returns (r: Result<seq<Record>, ReviewError>)
    requires DistinctEntries(es)
    requires forall e :: e in es ==> e.response.Some?
    modifies set e | e in es
    ensures forall e :: e in es ==> e.response.Some?
    ensures r == ParseAll(old(Contents(es)), sign, host)
    ensures forall j :: 0 <= j < |es| ==>
              es[j].response ==
                Some(Response(if j < Reach(old(Contents(es)), sign, host) then Trim(old(Contents(es))[j])
                              else old(Contents(es))[j],
                              old(es[j].response.value.internal)))
    ensures forall j :: 0 <= j < |es| ==> es[j].waiting == old(es[j].waiting)
  {
    var lines := Contents(es);
    var reached;
    r, reached := ParseLog(lines, sign, host);
    TrimEntries(es, reached);
  }

  /** Entries whose flags are, one by one, those of `flags`. */
  lemma FlagsAre(es: seq<LogEntry>, flags: seq<(bool, bool)>)
    requires |es| == |flags|
    requires forall j :: 0 <= j < |es| ==> es[j].response.Some? && (es[j].response.value.internal, es[j].waiting) == flags[j]
    ensures forall e :: e in es ==> e.response.Some?
    ensures Flags(es) == flags
  {
  }

  /** Entries holding the texts after the trim have the texts `TrimReached` gives. */
  lemma ContentsOfReached(es: seq<LogEntry>, lines: seq<string>, count: nat, sign: int, host: Host)
    requires |es| == |lines| && count == Reach(lines, sign, host)
    requires forall j :: 0 <= j < |es| ==>
               es[j].response.Some? &&
               es[j].response.value.content == if j < count then Trim(lines[j]) else lines[j]
    ensures forall e :: e in es ==> e.response.Some?
    ensures Contents(es) == TrimReached(lines, sign, host)
  {
  }

  /** The `.map` at review.js:127-168 over the texts `lines`: the parse of the whole log, and
      how many lines it read. */
  method ParseLog(lines: seq<string>, sign: int, host: Host) returns (r: Result<seq<Record>, ReviewError>, reached: nat)
    ensures r == ParseAll(lines, sign, host)
    ensures reached == Reach(lines, sign, host)
  {
    var records: seq<Record> := [];
    var i := 0;
    while i < |lines|
      invariant 0 <= i <= |lines|
      invariant ParseAll(lines[..i], sign, host) == Success(records)
      invariant forall j :: 0 <= j < i ==> !LineThrows(lines[j], sign, host)
    {
      var next := ParseEntry(lines, i, lines[i], sign, host, records);
      if next.Failure? {
        ParseAllFailureStays(lines, i + 1, sign, host);
        ReachFirstThrow(lines, i, sign, host);
        return next, i + 1;
      }
      records := next.value;
      NoThrowExtends(lines, i, sign, host);
      i := i + 1;
    }
    assert lines[..i] == lines;
    ReachNoThrow(lines, sign, host);
    r, reached := Success(records), i;
  }

  /** One more entry that does not throw. */
  lemma NoThrowExtends(lines: seq<string>, i: nat, sign: int, host: Host)
    requires i < |lines| && !LineThrows(lines[i], sign, host)
    requires forall j :: 0 <= j < i ==> !LineThrows(lines[j], sign, host)
    ensures forall j :: 0 <= j < i + 1 ==> !LineThrows(lines[j], sign, host)
  {
  }

  /** `x.response.content = x.response.content.trim()` on the first `count` entries, which
      are distinct objects; the others keep their response. */
  method TrimEntries(es: seq<LogEntry>, count: nat)
    requires count <= |es| && DistinctEntries(es)
    requires forall j :: 0 <= j < |es| ==> es[j].response.Some?
    modifies set e | e in es
    ensures forall j :: 0 <= j < count ==>
              es[j].response == Some(Response(Trim(old(es[j].response.value.content)), old(es[j].response.value.internal)))
    ensures forall j :: count <= j < |es| ==> es[j].response == old(es[j].response)
    ensures forall j :: 0 <= j < |es| ==> es[j].waiting == old(es[j].waiting)
  {
    var i := 0;
    while i < count
      invariant 0 <= i <= count
      invariant forall j :: 0 <= j < i ==>
                  es[j].response == Some(Response(Trim(old(es[j].response.value.content)), old(es[j].response.value.internal)))
      invariant forall j :: i <= j < |es| ==> es[j].response == old(es[j].response)
      invariant forall j :: 0 <= j < |es| ==> es[j].waiting == old(es[j].waiting)
    {
      var response := es[i].response.value;
      es[i].response := Some(Response(Trim(response.content), response.internal));
      i := i + 1;
    }
  }

  /** One step of the `.map` at review.js:127-168: the records of the log so far extended by
      the parse of the trimmed text `line`. */
  method ParseEntry(ghost lines: seq<string>, i: nat, line: string, sign: int, host: Host, records: seq<Record>)
    returns (r: Result<seq<Record>, ReviewError>)
    requires i < |lines| && lines[i] == line
    requires ParseAll(lines[..i], sign, host) == Success(records)
    ensures r == ParseAll(lines[..i + 1], sign, host)
    ensures r.Failure? <==> LineThrows(line, sign, host)
  {
    var parsed := ParseLine(Trim(line), sign, host);
    ParseAllStep(lines[..i], line, sign, host, records, parsed);
    PrefixSnoc(lines, i);
    match parsed
    case Failure(e) => r := Failure(e);
    case Success(None) => r := Success(records);
    case Success(Some(x)) => r := Success(records + [x]);
  }
}
