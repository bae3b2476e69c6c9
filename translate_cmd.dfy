/** The translate command (internal/commands/translate.go): the shared flag
    check, the batched machine translation of one document, the dry-run
    count, and the choice of languages. The provider is an oracle from a
    request to either a list of translations or a failure. */
module TranslateCmd {
  import opened Text
  import opened Wrappers
  import opened Order
  import opened Hex
  import opened PoFile
  import opened Lang

  /** The flags shared by the provider subcommands. */
  datatype Settings = Settings(poDir: string, langs: seq<string>, exclude: seq<string>,
                               batch: int, dryRun: bool)

  /** requireCommon: the settings must be wired and the batch size
      positive. */
  function RequireCommon(common: Option<Settings>): (r: Result<Settings, string>)
    ensures r.Ok? <==> common.Some? && common.value.batch > 0
    ensures r.Ok? ==> r.value == common.value
  {
    match common
    case None => Err("translate command not initialized")
    case Some(c) => if c.batch <= 0 then Err("batch size must be > 0") else Ok(c)
  }

  /** translate.Request. */
  datatype Request = Request(sourceLang: string, targetLang: string, texts: seq<string>)

  /** Why a batch was not applied. */
  datatype Failure = ClientFailed | SizeMismatch(got: nat, want: nat)

  /** An entry the translator fills: no translation yet, an id, and no
      notranslate marker. */
  predicate IsPending(e: Entry) {
    e.msgStr == "" && e.msgId != "" && !HasNoTranslate(e)
  }

  /** Positions ascending and inside the document. */
  predicate ValidPositions(es: seq<Entry>, p: seq<nat>) {
    (forall k :: 0 <= k < |p| ==> p[k] < |es|)
    && (forall k, l :: 0 <= k < l < |p| ==> p[k] < p[l])
  }

  /** The positions of the pending entries, in document order. */
  function PendingIndices(es: seq<Entry>): (r: seq<nat>)
    ensures ValidPositions(es, r)
    ensures forall k :: 0 <= k < |r| ==> IsPending(es[r[k]])
    ensures forall j :: 0 <= j < |es| && IsPending(es[j]) ==> j in r
  {
    if es == [] then []
    else
      var init := PendingIndices(es[..|es| - 1]);
      assert forall k :: 0 <= k < |init| ==> es[..|es| - 1][init[k]] == es[init[k]];
      if IsPending(es[|es| - 1]) then init + [|es| - 1] else init
  }

  /** Collects the pending entries as translatePO's first loop does. */
  method CollectPending(es: seq<Entry>) returns (pending: seq<nat>)
    ensures pending == PendingIndices(es)
  {
    pending := [];
    for i := 0 to |es|
      invariant pending == PendingIndices(es[..i])
    {
      assert es[..i + 1][..i] == es[..i];
      var entry := es[i];
      if entry.msgStr != "" || entry.msgId == "" {
        continue;
      }
      if HasNoTranslate(entry) {
        continue;
      }
      pending := pending + [i];
    }
    assert es[..|es|] == es;
  }

  /** The ids at the given positions: the texts of one request. */
  function MsgIds(es: seq<Entry>, p: seq<nat>): (r: seq<string>)
    requires forall k :: 0 <= k < |p| ==> p[k] < |es|
    ensures |r| == |p| && forall k :: 0 <= k < |p| ==> r[k] == es[p[k]].msgId
  {
    seq(|p|, k requires 0 <= k < |p| => es[p[k]].msgId)
  }

  /** Writes `out[m]` into the translation of the pending entry at index
      lo + m, in order. */
  function Apply(es: seq<Entry>, p: seq<nat>, lo: nat, out: seq<string>): (r: seq<Entry>)
    requires lo + |out| <= |p| && ValidPositions(es, p)
    ensures |r| == |es|
  {
    if out == [] then es
    else
      var n := |out| - 1;
      var r := Apply(es, p, lo, out[..n]);
      r[p[lo + n] := r[p[lo + n]].(msgStr := out[n])]
  }

  /** Applying by position: the pending entry at index lo + m gets `out[m]`,
      every other entry is left as it was. */
  lemma {:induction false} ApplyEffect(es: seq<Entry>, p: seq<nat>, lo: nat, out: seq<string>)
    requires lo + |out| <= |p| && ValidPositions(es, p)
    ensures forall k :: 0 <= k < |p| ==>
              Apply(es, p, lo, out)[p[k]]
              == if lo <= k < lo + |out| then es[p[k]].(msgStr := out[k - lo]) else es[p[k]]
    ensures forall j :: 0 <= j < |es| && j !in p ==> Apply(es, p, lo, out)[j] == es[j]
  {
    if out != [] {
      var n := |out| - 1;
      ApplyEffect(es, p, lo, out[..n]);
    }
  }

  /** Applying translations keeps the positions valid and every id. */
  lemma ApplyKeepsIds(es: seq<Entry>, p: seq<nat>, lo: nat, out: seq<string>)
    requires lo + |out| <= |p| && ValidPositions(es, p)
    ensures ValidPositions(Apply(es, p, lo, out), p)
    ensures MsgIds(Apply(es, p, lo, out), p) == MsgIds(es, p)
  {
  }

  /** The outcome of translatePO: the entries, the count it returns and the
      error, if any. */
  datatype Outcome = Outcome(entries: seq<Entry>, translated: nat, failure: Option<Failure>)

  function BatchEnd(i: nat, batch: nat, n: nat): (end: nat)
    requires i < n && batch > 0
    ensures i < end <= n && end - i <= batch
    ensures end < n ==> end == i + batch
  {
    if i + batch > n then n else i + batch
  }

  /** The texts of the batch starting at pending index i. */
  function BatchOf(es: seq<Entry>, p: seq<nat>, batch: nat, i: nat): (texts: seq<string>)
    requires batch > 0 && ValidPositions(es, p) && i < |p|
    ensures 1 <= |texts| <= batch && |texts| == BatchEnd(i, batch, |p|) - i
  {
    MsgIds(es, p[i..BatchEnd(i, batch, |p|)])
  }

  /** The client's answer to one batch, when it can be applied: a failure
      or a list of the wrong length is refused. */
  function Response(texts: seq<string>, client: Request -> Option<seq<string>>,
                    sourceLang: string, targetLang: string): (r: Result<seq<string>, Failure>)
    ensures r.Ok? ==> |r.value| == |texts|
  {
    match client(Request(sourceLang, targetLang, texts))
    case None => Err(ClientFailed)
    case Some(out) => if |out| != |texts| then Err(SizeMismatch(|out|, |texts|)) else Ok(out)
  }

  /** The batches from pending index `i` on; each is sent, checked and
      applied before the next. */
  function TranslateFrom(es: seq<Entry>, p: seq<nat>, client: Request -> Option<seq<string>>,
                         sourceLang: string, targetLang: string, batch: nat, i: nat): (o: Outcome)
    requires batch > 0 && ValidPositions(es, p)
    ensures |o.entries| == |es|
    decreases |p| - i
  {
    if i >= |p| then Outcome(es, |p|, None)
    else
      match Response(BatchOf(es, p, batch, i), client, sourceLang, targetLang)
      case Err(f) => Outcome(es, i, Some(f))
      case Ok(out) =>
        ApplyKeepsIds(es, p, i, out);
        TranslateFrom(Apply(es, p, i, out), p, client, sourceLang, targetLang, batch, i + batch)
  }

  /** translatePO on a document's entries. */
  function Translate(es: seq<Entry>, client: Request -> Option<seq<string>>, sourceLang: string,
                     targetLang: string, batch: nat): Outcome
    requires batch > 0
  {
    TranslateFrom(es, PendingIndices(es), client, sourceLang, targetLang, batch, 0)
  }

  /** The requests sent from pending index `i` on. */
  function CallsFrom(es: seq<Entry>, p: seq<nat>, client: Request -> Option<seq<string>>,
                     sourceLang: string, targetLang: string, batch: nat, i: nat): seq<seq<string>>
    requires batch > 0 && ValidPositions(es, p)
    decreases |p| - i
  {
    if i >= |p| then []
    else
      var texts := BatchOf(es, p, batch, i);
      match Response(texts, client, sourceLang, targetLang)
      case Err(_) => [texts]
      case Ok(out) =>
        ApplyKeepsIds(es, p, i, out);
        [texts] + CallsFrom(Apply(es, p, i, out), p, client, sourceLang, targetLang, batch, i + batch)
  }

  /** What translatePO promises about any run: the count is the number of
      pending entries written, which are exactly those from index i up to
      the count; the others, pending or not, are untouched; and with no
      error every pending entry was written. */
  lemma {:induction false} TranslateFromEffect(es: seq<Entry>, p: seq<nat>,
                                               client: Request -> Option<seq<string>>,
                                               sourceLang: string, targetLang: string,
                                               batch: nat, i: nat)
    requires batch > 0 && ValidPositions(es, p)
    ensures var o := TranslateFrom(es, p, client, sourceLang, targetLang, batch, i);
            && o.translated <= |p|
            && (i <= |p| ==> i <= o.translated)
            && (o.failure.None? ==> o.translated == |p|)
            && (forall k :: 0 <= k < |p| && (k < i || o.translated <= k) ==> o.entries[p[k]] == es[p[k]])
            && (forall j :: 0 <= j < |es| && j !in p ==> o.entries[j] == es[j])
    decreases |p| - i
  {
    if i < |p| {
      var r := Response(BatchOf(es, p, batch, i), client, sourceLang, targetLang);
      if r.Ok? {
        ApplyKeepsIds(es, p, i, r.value);
        ApplyEffect(es, p, i, r.value);
        TranslateFromEffect(Apply(es, p, i, r.value), p, client, sourceLang, targetLang, batch, i + batch);
      }
    }
  }

  /** Only translations change: ids, contexts and comments stay. */
  lemma {:induction false} OnlyTranslationsChange(es: seq<Entry>, p: seq<nat>,
                                                  client: Request -> Option<seq<string>>,
                                                  sourceLang: string, targetLang: string,
                                                  batch: nat, i: nat)
    requires batch > 0 && ValidPositions(es, p)
    ensures var o := TranslateFrom(es, p, client, sourceLang, targetLang, batch, i);
            forall j :: 0 <= j < |es| ==> o.entries[j] == es[j].(msgStr := o.entries[j].msgStr)
    decreases |p| - i
  {
    if i < |p| {
      var r := Response(BatchOf(es, p, batch, i), client, sourceLang, targetLang);
      if r.Ok? {
        var es' := Apply(es, p, i, r.value);
        ApplyKeepsIds(es, p, i, r.value);
        ApplyEffect(es, p, i, r.value);
        OnlyTranslationsChange(es', p, client, sourceLang, targetLang, batch, i + batch);
        var o := TranslateFrom(es', p, client, sourceLang, targetLang, batch, i + batch);
        assert TranslateFrom(es, p, client, sourceLang, targetLang, batch, i) == o;
        forall j | 0 <= j < |es| ensures o.entries[j] == es[j].(msgStr := o.entries[j].msgStr) {
          if j in p {
            var k :| 0 <= k < |p| && p[k] == j;
          }
          assert es'[j] == es[j].(msgStr := es'[j].msgStr);
        }
      }
    }
  }

  /** Each written entry got the response at its own position in its own
      batch: one step of the loop. */
  lemma BatchApplied(es: seq<Entry>, p: seq<nat>, client: Request -> Option<seq<string>>,
                     sourceLang: string, targetLang: string, batch: nat, i: nat, out: seq<string>)
    requires batch > 0 && ValidPositions(es, p) && i < |p|
    requires client(Request(sourceLang, targetLang, BatchOf(es, p, batch, i))) == Some(out)
    requires |out| == |BatchOf(es, p, batch, i)|
    ensures var next := Apply(es, p, i, out);
            && (forall k :: i <= k < i + |out| ==> next[p[k]] == es[p[k]].(msgStr := out[k - i]))
            && TranslateFrom(es, p, client, sourceLang, targetLang, batch, i)
               == TranslateFrom(next, p, client, sourceLang, targetLang, batch, i + batch)
  {
    ApplyEffect(es, p, i, out);
  }

  /** A failed batch leaves the document as the earlier batches made it and
      reports how many entries those wrote. */
  lemma BatchFailed(es: seq<Entry>, p: seq<nat>, client: Request -> Option<seq<string>>,
                    sourceLang: string, targetLang: string, batch: nat, i: nat)
    requires batch > 0 && ValidPositions(es, p) && i < |p|
    requires var texts := BatchOf(es, p, batch, i);
             var resp := client(Request(sourceLang, targetLang, texts));
             resp.None? || |resp.value| != |texts|
    ensures var o := TranslateFrom(es, p, client, sourceLang, targetLang, batch, i);
            o.entries == es && o.translated == i && o.failure.Some?
  {
  }

  /** The texts of all pending entries, in order. */
  function Concat(calls: seq<seq<string>>): seq<string> {
    if calls == [] then [] else calls[0] + Concat(calls[1..])
  }

  /** The number of batches of at most b texts that n texts make. */
  function Batches(n: nat, b: nat): nat
    requires b > 0
  {
    if n == 0 then 0 else if n <= b then 1 else 1 + Batches(n - b, b)
  }

  /** The batch count is ceil(n / b), that is (n + b - 1) / b. */
  lemma {:induction false} BatchesIsCeilDiv(n: nat, b: nat)
    requires b > 0
    ensures Batches(n, b) == (n + b - 1) / b
  {
    if n == 0 {
      DivModUnique(b - 1, b, 0, b - 1);
    } else if n <= b {
      DivModUnique(n + b - 1, b, 1, n - 1);
    } else {
      BatchesIsCeilDiv(n - b, b);
      var x := n - b + b - 1;
      var q, r := x / b, x % b;
      assert n + b - 1 == b * (q + 1) + r;
      DivModUnique(n + b - 1, b, q + 1, r);
    }
  }

  /** The requests: non-empty, at most `batch` texts each; with no failure
      they are the ids of all pending entries in order, in Batches(n, batch) = ceil(n / batch)
      calls. */
  lemma {:induction false} CallsShape(es: seq<Entry>, p: seq<nat>,
                                      client: Request -> Option<seq<string>>,
                                      sourceLang: string, targetLang: string, batch: nat, i: nat)
    requires batch > 0 && ValidPositions(es, p) && i <= |p|
    ensures var calls := CallsFrom(es, p, client, sourceLang, targetLang, batch, i);
            && (forall c :: c in calls ==> 1 <= |c| <= batch)
            && (TranslateFrom(es, p, client, sourceLang, targetLang, batch, i).failure.None? ==>
                  Concat(calls) == MsgIds(es, p[i..]) && |calls| == Batches(|p| - i, batch))
    decreases |p| - i
  {
    if i < |p| {
      var texts := BatchOf(es, p, batch, i);
      var r := Response(texts, client, sourceLang, targetLang);
      if r.Ok? {
        var end := BatchEnd(i, batch, |p|);
        var es' := Apply(es, p, i, r.value);
        ApplyKeepsIds(es, p, i, r.value);
        if end < |p| {
          CallsShape(es', p, client, sourceLang, targetLang, batch, end);
          CallsStep(es, p, client, sourceLang, targetLang, batch, i, end);
        } else {
          CallsLast(es, p, client, sourceLang, targetLang, batch, i);
        }
      }
    }
  }

  /** A last batch holds all remaining ids and is the last call. */
  lemma CallsLast(es: seq<Entry>, p: seq<nat>, client: Request -> Option<seq<string>>,
                  sourceLang: string, targetLang: string, batch: nat, i: nat)
    requires batch > 0 && ValidPositions(es, p) && i < |p|
    requires BatchEnd(i, batch, |p|) == |p|
    requires Response(BatchOf(es, p, batch, i), client, sourceLang, targetLang).Ok?
    ensures var calls := CallsFrom(es, p, client, sourceLang, targetLang, batch, i);
      && calls == [BatchOf(es, p, batch, i)]
      && Concat(calls) == MsgIds(es, p[i..])
      && |calls| == Batches(|p| - i, batch)
  {
    var texts := BatchOf(es, p, batch, i);
    var out := Response(texts, client, sourceLang, targetLang).value;
    ApplyKeepsIds(es, p, i, out);
    assert CallsFrom(es, p, client, sourceLang, targetLang, batch, i) == [texts];
    assert Concat([texts]) == texts + Concat([]);
    assert p[i..BatchEnd(i, batch, |p|)] == p[i..];
  }

  /** One full batch followed by the rest. */
  lemma CallsStep(es: seq<Entry>, p: seq<nat>, client: Request -> Option<seq<string>>,
                  sourceLang: string, targetLang: string, batch: nat, i: nat, end: nat)
    requires batch > 0 && ValidPositions(es, p) && i < |p|
    requires end == BatchEnd(i, batch, |p|) && end < |p|
    requires Response(BatchOf(es, p, batch, i), client, sourceLang, targetLang).Ok?
    ensures var out := Response(BatchOf(es, p, batch, i), client, sourceLang, targetLang).value;
            var es' := Apply(es, p, i, out);
            var calls := CallsFrom(es, p, client, sourceLang, targetLang, batch, i);
            var rest := CallsFrom(es', p, client, sourceLang, targetLang, batch, end);
            && ValidPositions(es', p)
            && calls == [BatchOf(es, p, batch, i)] + rest
            && TranslateFrom(es, p, client, sourceLang, targetLang, batch, i)
               == TranslateFrom(es', p, client, sourceLang, targetLang, batch, end)
            && (Concat(rest) == MsgIds(es', p[end..]) ==> Concat(calls) == MsgIds(es, p[i..]))
            && (|rest| == Batches(|p| - end, batch) ==> |calls| == Batches(|p| - i, batch))
  {
    var out := Response(BatchOf(es, p, batch, i), client, sourceLang, targetLang).value;
    var es' := Apply(es, p, i, out);
    CallsUnfold(es, p, client, sourceLang, targetLang, batch, i, end);
    var rest := CallsFrom(es', p, client, sourceLang, targetLang, batch, end);
    ConcatCons(BatchOf(es, p, batch, i), rest);
    IdsOfSuffix(es, es', p, end);
    IdsOfSplit(es, p, i, end);
  }

  /** The calls and the outcome from a batch that succeeded, in terms of the
      run after it. */
  lemma CallsUnfold(es: seq<Entry>, p: seq<nat>, client: Request -> Option<seq<string>>,
                    sourceLang: string, targetLang: string, batch: nat, i: nat, end: nat)
    requires batch > 0 && ValidPositions(es, p) && i < |p|
    requires end == BatchEnd(i, batch, |p|)
    requires Response(BatchOf(es, p, batch, i), client, sourceLang, targetLang).Ok?
    ensures var out := Response(BatchOf(es, p, batch, i), client, sourceLang, targetLang).value;
            var es' := Apply(es, p, i, out);
            && ValidPositions(es', p)
            && MsgIds(es', p) == MsgIds(es, p)
            && CallsFrom(es, p, client, sourceLang, targetLang, batch, i)
               == [BatchOf(es, p, batch, i)] + CallsFrom(es', p, client, sourceLang, targetLang, batch, end)
            && TranslateFrom(es, p, client, sourceLang, targetLang, batch, i)
               == TranslateFrom(es', p, client, sourceLang, targetLang, batch, end)
  {
    var out := Response(BatchOf(es, p, batch, i), client, sourceLang, targetLang).value;
    ApplyKeepsIds(es, p, i, out);
  }

  lemma ConcatCons(a: seq<string>, rest: seq<seq<string>>)
    ensures Concat([a] + rest) == a + Concat(rest)
  {
    assert ([a] + rest)[1..] == rest;
  }

  /** The ids from position i on are those up to `end`, then the rest. */
  lemma IdsOfSplit(es: seq<Entry>, p: seq<nat>, i: nat, end: nat)
    requires ValidPositions(es, p) && i <= end <= |p|
    ensures MsgIds(es, p[i..]) == MsgIds(es, p[i..end]) + MsgIds(es, p[end..])
  {
    var a := MsgIds(es, p[i..]);
    var b := MsgIds(es, p[i..end]) + MsgIds(es, p[end..]);
    assert |a| == |b|;
    forall k | 0 <= k < |a| ensures a[k] == b[k] {
      if k < end - i {
        assert p[i..][k] == p[i..end][k];
      } else {
        assert p[i..][k] == p[end..][k - (end - i)];
      }
    }
  }

  /** Documents with the same ids at all positions agree on every suffix. */
  lemma IdsOfSuffix(es: seq<Entry>, es': seq<Entry>, p: seq<nat>, end: nat)
    requires ValidPositions(es, p) && ValidPositions(es', p) && end <= |p|
    requires MsgIds(es', p) == MsgIds(es, p)
    ensures MsgIds(es', p[end..]) == MsgIds(es, p[end..])
  {
    var a := MsgIds(es', p[end..]);
    var b := MsgIds(es, p[end..]);
    forall k | 0 <= k < |a| ensures a[k] == b[k] {
      assert p[end..][k] == p[end + k];
      assert MsgIds(es', p)[end + k] == MsgIds(es, p)[end + k];
    }
  }

  /** Collects the ids of one batch. */
  method BatchTexts(es: seq<Entry>, q: seq<nat>) returns (texts: seq<string>)
    requires forall k :: 0 <= k < |q| ==> q[k] < |es|
    ensures texts == MsgIds(es, q)
  {
    texts := [];
    for k := 0 to |q|
      invariant texts == MsgIds(es, q[..k])
    {
      texts := texts + [es[q[k]].msgId];
    }
    assert q[..|q|] == q;
  }

  /** Writes one batch's responses: `out[idx]` into pending entry i+idx. */
  method ApplyBatch(po: File, p: seq<nat>, i: nat, out: seq<string>, translated0: nat)
    returns (translated: nat)
    requires i + |out| <= |p| && ValidPositions(po.entries, p)
    modifies po
    ensures po.entries == Apply(old(po.entries), p, i, out)
    ensures translated == translated0 + |out|
    ensures po.headers == old(po.headers) && po.language == old(po.language)
  {
    translated := translated0;
    for idx := 0 to |out|
      invariant po.entries == Apply(old(po.entries), p, i, out[..idx])
      invariant translated == translated0 + idx
      invariant po.headers == old(po.headers) && po.language == old(po.language)
    {
      assert out[..idx + 1][..idx] == out[..idx];
      po.entries := po.entries[p[i + idx] := po.entries[p[i + idx]].(msgStr := out[idx])];
      translated := translated + 1;
    }
    assert out[..|out|] == out;
  }

  /** One pass of translatePO's loop: send the batch at pending index i,
      refuse a failure or a wrong-sized answer, apply the answer. */
  method TranslateBatch(po: File, pending: seq<nat>, i: nat, client: Request -> Option<seq<string>>,
                        sourceLang: string, targetLang: string, batch: nat)
    returns (translated: nat, failure: Option<Failure>)
    requires batch > 0 && ValidPositions(po.entries, pending) && i < |pending|
    modifies po
    ensures ValidPositions(po.entries, pending)
    ensures failure.None? ==>
              translated == BatchEnd(i, batch, |pending|)
              && TranslateFrom(po.entries, pending, client, sourceLang, targetLang, batch, i + batch)
                 == TranslateFrom(old(po.entries), pending, client, sourceLang, targetLang, batch, i)
    ensures failure.Some? ==>
              Outcome(po.entries, translated, failure)
              == TranslateFrom(old(po.entries), pending, client, sourceLang, targetLang, batch, i)
    ensures po.headers == old(po.headers) && po.language == old(po.language)
  {
    var end := i + batch;
    if end > |pending| {
      end := |pending|;
    }
    var texts := BatchTexts(po.entries, pending[i..end]);
    assert texts == BatchOf(po.entries, pending, batch, i);
    var out := client(Request(sourceLang, targetLang, texts));
    if out.None? {
      return i, Some(ClientFailed);
    }
    if |out.value| != |texts| {
      return i, Some(SizeMismatch(|out.value|, |texts|));
    }
    ApplyKeepsIds(po.entries, pending, i, out.value);
    translated := ApplyBatch(po, pending, i, out.value, i);
    failure := None;
  }

  /** translatePO: batches the pending ids, asks the client, and writes the
      answers back by position; it stops at the first failed batch. */
  method TranslatePO(po: File, client: Request -> Option<seq<string>>, sourceLang: string,
                     targetLang: string, batch: int) returns (translated: nat, failure: Option<Failure>)
    requires batch > 0
    modifies po
    ensures var o := Translate(old(po.entries), client, sourceLang, targetLang, batch);
            po.entries == o.entries && translated == o.translated && failure == o.failure
    ensures po.headers == old(po.headers) && po.language == old(po.language)
  {
    var pending := CollectPending(po.entries);
    if |pending| == 0 {
      return 0, None;
    }
    translated := 0;
    var i := 0;
    while i < |pending|
      invariant ValidPositions(po.entries, pending)
      invariant translated == if i < |pending| then i else |pending|
      invariant TranslateFrom(po.entries, pending, client, sourceLang, targetLang, batch, i)
                == Translate(old(po.entries), client, sourceLang, targetLang, batch)
      invariant po.headers == old(po.headers) && po.language == old(po.language)
      decreases |pending| - i
    {
      translated, failure := TranslateBatch(po, pending, i, client, sourceLang, targetLang, batch);
      if failure.Some? {
        return;
      }
      i := i + batch;
    }
    failure := None;
  }

  /** countPending as a fold: the number of pending entries and the total
      length of their ids. */
  function CountPending(es: seq<Entry>): (r: (nat, nat)) {
    if es == [] then (0, 0)
    else
      var (count, chars) := CountPending(es[..|es| - 1]);
      var e := es[|es| - 1];
      if e.msgStr != "" || e.msgId == "" then (count, chars)
      else if HasNoTranslate(e) then (count, chars)
      else (count + 1, chars + |e.msgId|)
  }

  function TotalLength(texts: seq<string>): nat {
    if texts == [] then 0 else TotalLength(texts[..|texts| - 1]) + |texts[|texts| - 1]|
  }

  /** The dry run counts exactly the entries a real run would send, and
      their characters. */
  lemma {:induction false} CountPendingMatches(es: seq<Entry>)
    ensures CountPending(es).0 == |PendingIndices(es)|
    ensures CountPending(es).1 == TotalLength(MsgIds(es, PendingIndices(es)))
  {
    if es != [] {
      var init := es[..|es| - 1];
      CountPendingMatches(init);
      var p := PendingIndices(init);
      assert MsgIds(es, p) == MsgIds(init, p);
      if IsPending(es[|es| - 1]) {
        assert MsgIds(es, p + [|es| - 1]) == MsgIds(es, p) + [es[|es| - 1].msgId];
      }
    }
  }

  /** The trimmed, non-empty pieces of one item. */
  function TrimmedParts(parts: seq<string>): (r: seq<string>)
    ensures forall k :: 0 <= k < |r| ==>
              r[k] != "" && IsTrimmed(r[k]) && exists j :: 0 <= j < |parts| && r[k] == TrimSpace(parts[j])
  {
    if parts == [] then []
    else
      var init := TrimmedParts(parts[..|parts| - 1]);
      var part := TrimSpace(parts[|parts| - 1]);
      TrimSpaceIsTrimmed(parts[|parts| - 1]);
      assert forall k :: 0 <= k < |init| ==> exists j :: 0 <= j < |parts| && init[k] == TrimSpace(parts[j]) by {
        forall k | 0 <= k < |init| ensures exists j :: 0 <= j < |parts| && init[k] == TrimSpace(parts[j]) {
          var j :| 0 <= j < |parts| - 1 && init[k] == TrimSpace(parts[..|parts| - 1][j]);
          assert parts[..|parts| - 1][j] == parts[j];
        }
      }
      if part != "" then init + [part] else init
  }

  /** normalizeLangs: every item split at commas, each part trimmed, empty
      parts dropped, order kept. */
  function NormalizeLangs(items: seq<string>): seq<string> {
    if items == [] then []
    else NormalizeLangs(items[..|items| - 1]) + TrimmedParts(Split(items[|items| - 1], ","))
  }

  /** A well-formed language name: what normalizeLangs produces. */
  predicate IsNormal(l: string) {
    l != "" && IsTrimmed(l) && !Contains(l, ",")
  }

  lemma PartsAreNormal(item: string)
    ensures forall k :: 0 <= k < |TrimmedParts(Split(item, ","))| ==> IsNormal(TrimmedParts(Split(item, ","))[k])
  {
    var parts := Split(item, ",");
    var r := TrimmedParts(parts);
    SplitPiecesAvoidSep(item, ",");
    forall k | 0 <= k < |r| ensures !Contains(r[k], ",") {
      var j :| 0 <= j < |parts| && r[k] == TrimSpace(parts[j]);
      if Contains(r[k], ",") {
        TrimmedOccurrence(parts[j], ",");
      }
    }
  }

  /** No output name is empty, padded, or holds a comma. */
  lemma {:induction false} NormalizeLangsNormal(items: seq<string>)
    ensures forall k :: 0 <= k < |NormalizeLangs(items)| ==> IsNormal(NormalizeLangs(items)[k])
  {
    if items != [] {
      NormalizeLangsNormal(items[..|items| - 1]);
      PartsAreNormal(items[|items| - 1]);
    }
  }

  lemma {:induction false} NormalizeAppend(a: seq<string>, b: seq<string>)
    ensures NormalizeLangs(a + b) == NormalizeLangs(a) + NormalizeLangs(b)
    decreases |b|
  {
    if b != [] {
      var n := |b| - 1;
      assert (a + b)[..|a + b| - 1] == a + b[..n];
      assert (a + b)[|a + b| - 1] == b[n];
      NormalizeAppend(a, b[..n]);
      assert NormalizeLangs(b) == NormalizeLangs(b[..n]) + TrimmedParts(Split(b[n], ","));
    } else {
      assert a + b == a;
    }
  }

  /** Normalising a normalised list changes nothing. */
  lemma {:induction false} NormalizeIdempotent(items: seq<string>)
    ensures NormalizeLangs(NormalizeLangs(items)) == NormalizeLangs(items)
  {
    NormalizeLangsNormal(items);
    NormalKept(NormalizeLangs(items));
  }

  lemma {:induction false} NormalKept(ls: seq<string>)
    requires forall k :: 0 <= k < |ls| ==> IsNormal(ls[k])
    ensures NormalizeLangs(ls) == ls
  {
    if ls != [] {
      var l := ls[|ls| - 1];
      NormalKept(ls[..|ls| - 1]);
      SplitWithoutSep(l, ",");
      TrimSpaceOfTrimmed(l);
      assert TrimmedParts([l]) == [l] by {
        assert [l][..0] == [];
      }
      InitLast(ls);
    }
  }

  /** The entries of `langs` whose names are keys of `poFiles`, in order. */
  function Present<V>(langs: seq<string>, poFiles: map<string, V>): (r: seq<string>)
    ensures forall x :: x in r <==> x in langs && x in poFiles
    ensures Distinct(langs) ==> Distinct(r)
  {
    if langs == [] then []
    else
      var init := Present(langs[..|langs| - 1], poFiles);
      var l := langs[|langs| - 1];
      assert forall x :: x in langs[..|langs| - 1] ==> x in langs;
      assert Distinct(langs) ==> l !in langs[..|langs| - 1];
      if l in poFiles then init + [l] else init
  }

  /** A listing of the keys that are not default languages, in whatever
      order the map is visited. */
  ghost predicate IsRestListing<V>(poFiles: map<string, V>, rest: seq<string>) {
    Distinct(rest) && forall k :: k in rest <==> k in poFiles && !ContainsLanguage(DefaultLanguages, k)
  }

  /** selectLangsInOrder: with a filter, the requested names that have a
      file; without, the default languages that have a file in default
      order, then every other file's language. */
  function SelectLangsInOrder<V>(poFiles: map<string, V>, filter: seq<string>, rest: seq<string>)
    : seq<string>
    requires IsRestListing(poFiles, rest)
  {
    if |filter| > 0 then Present(filter, poFiles)
    else Present(DefaultLanguages, poFiles) + rest
  }

  /** Without a filter every language with a file appears exactly once. */
  lemma AllLanguagesOnce<V>(poFiles: map<string, V>, rest: seq<string>)
    requires IsRestListing(poFiles, rest)
    ensures var r := SelectLangsInOrder(poFiles, [], rest);
            Distinct(r) && forall k :: k in r <==> k in poFiles
  {
    DefaultLanguagesDistinct();
    var d := Present(DefaultLanguages, poFiles);
    var r := d + rest;
    forall i, j | 0 <= i < j < |r| ensures r[i] != r[j] {
      if i < |d| && j >= |d| {
        assert r[i] in d && r[j] in rest;
      }
    }
  }

  /** filterExcluded: drops the excluded names, keeping the order. */
  function FilterExcluded(langs: seq<string>, excluded: set<string>): (r: seq<string>)
    ensures forall x :: x in r <==> x in langs && x !in excluded
  {
    if |excluded| == 0 then langs else Keep(langs, excluded)
  }

  function Keep(langs: seq<string>, excluded: set<string>): (r: seq<string>)
    ensures forall x :: x in r <==> x in langs && x !in excluded
  {
    if langs == [] then []
    else
      var init := Keep(langs[..|langs| - 1], excluded);
      var l := langs[|langs| - 1];
      assert forall x :: x in langs <==> x in langs[..|langs| - 1] || x == l;
      if l in excluded then init else init + [l]
  }

  /** Filtering distributes over concatenation: relative order is kept. */
  lemma {:induction false} FilterAppend(a: seq<string>, b: seq<string>, excluded: set<string>)
    ensures FilterExcluded(a + b, excluded) == FilterExcluded(a, excluded) + FilterExcluded(b, excluded)
  {
    if |excluded| > 0 {
      KeepAppend(a, b, excluded);
    }
  }

  lemma {:induction false} KeepAppend(a: seq<string>, b: seq<string>, excluded: set<string>)
    ensures Keep(a + b, excluded) == Keep(a, excluded) + Keep(b, excluded)
    decreases |b|
  {
    if b != [] {
      var n := |b| - 1;
      assert (a + b)[..|a + b| - 1] == a + b[..n];
      assert (a + b)[|a + b| - 1] == b[n];
      KeepAppend(a, b[..n], excluded);
    } else {
      assert a + b == a;
    }
  }

  /** The first requested name that has no file. */
  function FirstMissing<V>(langs: seq<string>, poFiles: map<string, V>): (r: Option<string>)
    ensures r.None? <==> forall l :: l in langs ==> l in poFiles
    ensures r.Some? ==> r.value in langs && r.value !in poFiles
    ensures r.Some? ==>
      exists j :: 0 <= j < |langs| && langs[j] == r.value && forall k :: 0 <= k < j ==> langs[k] in poFiles
  {
    if langs == [] then None
    else if langs[0] !in poFiles then Some(langs[0])
    else
      var r := FirstMissing(langs[1..], poFiles);
      assert forall l :: l in langs ==> l == langs[0] || l in langs[1..];
      r
  }

  /** selectLangs, with `rest` the map order of the languages that are not
      defaults. */
  function SelectLangs(filter: seq<string>, exclude: seq<string>, poFiles: map<string, string>,
                       rest: seq<string>): Result<seq<string>, string>
    requires IsRestListing(poFiles, rest)
  {
    var normalized := NormalizeLangs(filter);
    var excludeSet := set x | x in NormalizeLangs(exclude);
    if |normalized| == 0 then Ok(FilterExcluded(SelectLangsInOrder(poFiles, [], rest), excludeSet))
    else
      match FirstMissing(normalized, poFiles)
      case Some(lang) => Err("language '" + lang + "' not found in PO directory")
      case None => Ok(FilterExcluded(SelectLangsInOrder(poFiles, normalized, rest), excludeSet))
  }

  /** selectLangs fails exactly when a requested language has no file;
      otherwise every selected language has a file and is not excluded, and
      a request is answered in the requested order. */
  lemma SelectLangsSpec(filter: seq<string>, exclude: seq<string>, poFiles: map<string, string>,
                        rest: seq<string>)
    requires IsRestListing(poFiles, rest)
    ensures var r := SelectLangs(filter, exclude, poFiles, rest);
            && (r.Err? <==> exists l :: l in NormalizeLangs(filter) && l !in poFiles)
            && (r.Ok? ==> forall l :: l in r.value ==> l in poFiles && l !in NormalizeLangs(exclude))
            && (r.Ok? && NormalizeLangs(filter) != [] ==>
                  r.value == FilterExcluded(NormalizeLangs(filter), set x | x in NormalizeLangs(exclude)))
  {
    var normalized := NormalizeLangs(filter);
    if normalized != [] && FirstMissing(normalized, poFiles).None? {
      PresentAll(normalized, poFiles);
    }
  }

  lemma {:induction false} PresentAll<V>(langs: seq<string>, poFiles: map<string, V>)
    requires forall l :: l in langs ==> l in poFiles
    ensures Present(langs, poFiles) == langs
  {
    if langs != [] {
      var init := langs[..|langs| - 1];
      assert forall l :: l in init ==> l in langs;
      PresentAll(init, poFiles);
      InitLast(langs);
    }
  }
}
