/**
 * The bookkeeping of the generation loop (lac.cpp): tokens are fed, the context is shifted or extended, batches are
 * decoded.
 */
module Generation {
  import opened KvCaches

  class Generator {
    const nCtx: int
    const nKeep: int
    const nBatch: nat
    const gaN: nat
    const gaW: nat
    const ctxShift: bool
    const stopWhenFull: bool
    /** The positions a compressed group of gaW takes up. */
    ghost const q: nat

    var nPast: int
    var gaI: int
    var kv: Kv
    /** Every token decoded so far; the cache names tokens by their index here. */
    var history: seq<int>
    /** Tokens dropped by context shifts, and groups compressed by Self-Extend. */
    ghost var dropped: nat
    ghost var groups: nat
    ghost var shifts: nat

    constructor (nCtx: int, nKeep: int, nBatch: nat, gaN: nat, gaW: nat, ctxShift: bool, stopWhenFull: bool)
      requires nBatch > 0 && nCtx > 4 && gaN > 0 && (gaN == 1 ==> nKeep >= 0) &&
               (gaN != 1 ==> gaW > 0 && gaW % gaN == 0)
      ensures Valid() && history == [] && shifts == dropped == 0
      ensures this.nCtx == nCtx && this.nKeep == nKeep && this.nBatch == nBatch && this.gaN == gaN && this.gaW == gaW
      ensures this.ctxShift == ctxShift && this.stopWhenFull == stopWhenFull
    {
      this.nCtx, this.nKeep, this.nBatch, this.gaN, this.gaW := nCtx, nKeep, nBatch, gaN, gaW;
      this.ctxShift, this.stopWhenFull := ctxShift, stopWhenFull;
      nPast, gaI, kv, history, dropped, groups, shifts := 0, 0, map[], [], 0, 0, 0;
      q := gaW / gaN;
      ProductMeans(gaW, gaN, gaW / gaN);
      assert gaW == (gaW / gaN) * gaN + gaW % gaN;
    }

    ghost predicate Valid()
      reads this
    {
      && nBatch > 0 && nCtx > 4 && gaN > 0
      && if gaN == 1 then 0 <= nKeep && WindowState(kv, nPast, |history|, nKeep, dropped)
         else gaW > 0 && ExtendedState(kv, nPast, gaI, |history|, gaN, gaW, q, groups)
    }

    /** Drops half of what lies behind the kept tokens and closes the gap; the kept tokens may include one to come. */
    method Shift()
      requires Valid() && gaN == 1 && nKeep <= nPast + 1
      modifies this`nPast, this`kv, this`dropped, this`shifts
      ensures Valid() && nPast == old(nPast) - Quotient(old(nPast) - nKeep, 2)
      ensures shifts == old(shifts) + 1 && dropped == old(dropped) + Quotient(old(nPast) - nKeep, 2)
    {
      hide SeqRm, SeqAdd, IsWindow;
      var nLeft := nPast - nKeep;
      var nDiscard := Quotient(nLeft, 2);
      WindowSize(kv, |history|, nKeep, dropped);
      ShiftWindow(kv, |history|, nKeep, dropped, nDiscard);
      kv := SeqRm(kv, nKeep, nKeep + nDiscard);
      kv := SeqAdd(kv, nKeep + nDiscard, nPast, 0 - nDiscard);
      nPast := nPast - nDiscard;
      dropped, shifts := dropped + nDiscard, shifts + 1;
    }

    /** Self-Extend: compresses all complete groups of the history. */
    method Extend()
      requires Valid() && gaN != 1
      modifies this`nPast, this`gaI, this`kv, this`groups
      ensures Valid() && groups == |history| / gaW
    {
      var kv', nPast', gaI' := SelfExtend(kv, nPast, gaI, gaN, gaW, |history|, q, groups);
      kv, nPast, gaI, groups := kv', nPast', gaI', |history| / gaW;
    }

    /** llama_decode of one batch at the positions that follow. */
    method DecodeBatch(batch: seq<int>)
      requires Valid()
      modifies this`nPast, this`kv, this`history
      ensures Valid() && history == old(history) + batch && nPast == old(nPast) + |batch|
    {
      var after := Decoded(kv, |history|, |batch|, nPast);
      if gaN == 1 {
        DecodeKeepsWindow(kv, nPast, |history|, |batch|, nKeep, dropped, after);
      } else {
        DecodeKeepsExtended(kv, nPast, gaI, |history|, |batch|, gaN, gaW, q, groups, after);
      }
      kv := after;
      history := history + batch;
      nPast := nPast + |batch|;
    }

    /** Evaluates the tokens in batches. */
    method Decode(embd: seq<int>)
      requires Valid()
      modifies this`nPast, this`kv, this`history
      ensures Valid() && history == old(history) + embd && nPast == old(nPast) + |embd|
    {
      var i := 0;
      while i < |embd|
        invariant 0 <= i <= |embd| + nBatch
        invariant Valid()
        invariant history == old(history) + embd[..if i < |embd| then i else |embd|]
        invariant nPast == old(nPast) + if i < |embd| then i else |embd|
      {
        var nEval := |embd| - i;
        if nEval > nBatch {
          nEval := nBatch;
        }
        assert embd[..i] + embd[i..i + nEval] == embd[..i + nEval];
        DecodeBatch(embd[i..i + nEval]);
        i := i + nBatch;
      }
    }

    /** As much of a batch as the context leaves room for, with four positions to spare. */
    function Cut(embd: seq<int>): (cut: seq<int>)
      requires nCtx > 4
      ensures cut <= embd && |cut| <= nCtx - 4 && (|cut| < |embd| ==> |cut| == nCtx - 4)
    {
      if |embd| > nCtx - 4 then embd[..nCtx - 4] else embd
    }

    /** What an iteration does with the tokens gathered by the one before. */
    method Predict(embd: seq<int>) returns (stopped: bool)
      requires Valid()
      requires gaN == 1 && nPast + |Cut(embd)| >= nCtx ==> nKeep <= nPast + 1
      modifies this
      ensures Valid()
      ensures var cut := Cut(embd);
        var full := embd != [] && gaN == 1 && old(nPast) + |cut| >= nCtx;
        && (stopped <==> full && (!ctxShift || stopWhenFull))
        && history == old(history) + (if stopped then [] else cut)
        && (gaN == 1 && !stopped ==>
             var discard := if full then Quotient(old(nPast) - nKeep, 2) else 0;
             nPast == old(nPast) - discard + |cut| && dropped == old(dropped) + discard
             && shifts == old(shifts) + if full then 1 else 0)
        && (gaN != 1 ==> shifts == old(shifts) && dropped == old(dropped))
        && (gaN != 1 && embd != [] ==> groups == |old(history)| / gaW)
        && (stopped ==> nPast == old(nPast) && shifts == old(shifts) && dropped == old(dropped))
    {
      if embd == [] {
        return false;
      }
      var cut := Cut(embd);
      if gaN == 1 {
        if nPast + |cut| >= nCtx {
          if !ctxShift {
            return true;
          }
          if stopWhenFull {
            return true;
          }
          Shift();
        }
      } else {
        Extend();
      }
      Decode(cut);
      stopped := false;
    }
  }

  // ---------------------------------------------------------------- whole runs

  /** The number of tokens a shift leaves alone. */
  function KeepCount(nKeep: int, promptSize: nat, addBos: bool): int {
    if nKeep < 0 || nKeep > promptSize then promptSize else nKeep + if addBos then 1 else 0
  }

  /** A negative number, and one beyond the prompt, keeps the whole prompt; another one keeps a begin token besides. */
  lemma KeepCountMeans(nKeep: int, promptSize: nat, addBos: bool)
    ensures KeepCount(-1, promptSize, addBos) == KeepCount(promptSize + 1, promptSize, addBos) == promptSize
    ensures 0 <= nKeep <= promptSize ==> KeepCount(nKeep, promptSize, false) == nKeep
    ensures 0 <= nKeep <= promptSize ==> KeepCount(nKeep, promptSize, true) == nKeep + 1
    ensures 0 <= KeepCount(nKeep, promptSize, addBos) <= promptSize + 1
  {
  }

  /** What every iteration of a non-interactive run keeps: nothing lost, nothing shifted while the prompt is read,
      the position counter below the context size, and at least one token dropped by every shift. */
  ghost predicate InRun(g: Generator, prompt: seq<int>, consumed: nat, sampled: seq<int>, embd: seq<int>)
    reads g
  {
    && g.Valid() && consumed <= |prompt| <= g.nCtx - 4
    && g.history + embd == prompt[..consumed] + sampled
    && (sampled != [] ==> consumed == |prompt| && |embd| <= 1)
    && (sampled == [] ==> g.dropped == 0)
    && (g.gaN == 1 ==> g.nPast <= g.nCtx - 1 && g.nKeep <= g.nCtx - 3 && g.shifts <= g.dropped)
  }

  /** The next tokens of the prompt, up to a batch of them. */
  method NextTokens(prompt: seq<int>, start: nat, nBatch: nat) returns (embd: seq<int>, consumed: nat)
    requires start < |prompt| && nBatch > 0
    ensures consumed == (if start + nBatch < |prompt| then start + nBatch else |prompt|)
    ensures embd == prompt[start..consumed]
  {
    embd, consumed := [], start;
    while |prompt| > consumed
      invariant start <= consumed <= |prompt| && embd == prompt[start..consumed] && consumed < start + nBatch
    {
      embd := embd + [prompt[consumed]];
      consumed := consumed + 1;
      if |embd| >= nBatch {
        break;
      }
    }
  }

  lemma NotCut(g: Generator, prompt: seq<int>, consumed: nat, sampled: seq<int>, embd: seq<int>)
    requires InRun(g, prompt, consumed, sampled, embd)
    ensures g.Cut(embd) == embd
    ensures sampled == [] ==> |g.history| + |embd| <= g.nCtx - 4
  {
    assert |g.history| + |embd| == |prompt[..consumed] + sampled| == consumed + |sampled|;
  }

  /** A full context ends the run instead of being shifted or extended. */
  predicate StopsWhenFull(g: Generator) {
    g.gaN == 1 && (!g.ctxShift || g.stopWhenFull)
  }

  method RunStep(g: Generator, ghost prompt: seq<int>, ghost consumed: nat, ghost sampled: seq<int>, embd: seq<int>)
    returns (stopped: bool)
    requires InRun(g, prompt, consumed, sampled, embd)
    modifies g
    ensures if stopped then InRun(g, prompt, consumed, sampled, embd)
            else g.history == old(g.history) + embd && InRun(g, prompt, consumed, sampled, [])
    ensures g.shifts <= old(g.shifts) + 1
    ensures g.shifts > old(g.shifts) ==> g.dropped > old(g.dropped)
    ensures stopped ==> StopsWhenFull(g)
  {
    NotCut(g, prompt, consumed, sampled, embd);
    stopped := g.Predict(embd);
  }

  /** The number of batches that the prompt takes. */
  function Batches(count: nat, nBatch: nat): nat
    requires nBatch > 0
  {
    (count + nBatch - 1) / nBatch
  }

  lemma BatchesReached(count: nat, nBatch: nat, i: nat)
    requires nBatch > 0 && 0 < i && (i - 1) * nBatch < count <= i * nBatch
    ensures i == Batches(count, nBatch)
  {
    var b := Batches(count, nBatch);
    assert count + nBatch - 1 == b * nBatch + (count + nBatch - 1) % nBatch;
    if b < i { MulOrder(b, i - 1, nBatch); }
    if b > i { MulOrder(i + 1, b, nBatch); }
    assert (i - 1) * nBatch == i * nBatch - nBatch && (i + 1) * nBatch == i * nBatch + nBatch;
  }

  lemma MulOrder(a: nat, b: nat, n: nat)
    requires a <= b
    ensures a * n <= b * n
  {
  }

  /** After i iterations that sampled nothing the first i batches of the prompt are consumed. */
  ghost predicate ReadSoFar(size: nat, nBatch: nat, i: nat, consumed: nat) {
    consumed == (if i * nBatch < size then i * nBatch else size) && (i > 0 ==> (i - 1) * nBatch < size)
  }

  /** As long as nothing is sampled no more iterations have passed than there are batches. */
  lemma StillReading(size: nat, nBatch: nat, i: nat, consumed: nat)
    requires nBatch > 0 && 0 < size && ReadSoFar(size, nBatch, i, consumed)
    ensures i <= Batches(size, nBatch)
  {
    var b := Batches(size, nBatch);
    assert size + nBatch - 1 == b * nBatch + (size + nBatch - 1) % nBatch;
    if i > b + 1 { MulOrder(b + 1, i - 1, nBatch); }
    assert (b + 1) * nBatch == b * nBatch + nBatch;
  }

  lemma NextRead(size: nat, nBatch: nat, i: nat, consumed: nat)
    requires nBatch > 0 && ReadSoFar(size, nBatch, i, consumed) && consumed < size
    ensures ReadSoFar(size, nBatch, i + 1, if consumed + nBatch < size then consumed + nBatch else size)
    ensures i + 1 <= Batches(size, nBatch)
  {
    assert (i + 1) * nBatch == i * nBatch + nBatch;
    StillReading(size, nBatch, i + 1, if consumed + nBatch < size then consumed + nBatch else size);
  }

  /** One token for each iteration behind those that read the prompt, and no more than asked for; -1 asks for no end. */
  function SampledAfter(steps: nat, batches: nat, nPredict: int): nat {
    var room := if steps > batches then steps - batches else 0;
    if nPredict == 0 then 0 else if 0 < nPredict < room then nPredict else room
  }

  /**
   * The non-interactive loop for any number of iterations, any sampled tokens, and any reason to end it. Sampling
   * starts when the batches of the prompt are through, and then yields one token an iteration.
   */
  method Run(g: Generator, prompt: seq<int>, nKeep: int, addBos: bool, nPredict: int, sample: nat -> int,
             ends: nat -> bool, steps: nat)
    returns (ghost sampled: seq<int>)
    requires g.Valid() && g.history == [] && g.shifts == g.dropped == 0
    requires 0 < |prompt| <= g.nCtx - 4
    requires g.gaN == 1 ==> g.nKeep == KeepCount(nKeep, |prompt|, addBos)
    modifies g
    ensures g.Valid()
    ensures g.history <= prompt + sampled
    ensures sampled != [] ==> |g.history| + 1 >= |prompt| + |sampled|
    ensures forall j :: 0 <= j < |sampled| ==> sampled[j] == sample(Batches(|prompt|, g.nBatch) + j)
    ensures g.gaN == 1 ==> g.nPast <= g.nCtx - 1 && g.shifts <= g.dropped
    ensures nPredict >= 0 ==> |sampled| <= nPredict
    ensures !StopsWhenFull(g) && (forall i: nat :: !ends(i)) ==>
              |sampled| == SampledAfter(steps, Batches(|prompt|, g.nBatch), nPredict)
  {
    hide InRun, ReadSoFar, KeepCount, StopsWhenFull, Batches;
    RunStarts(g, prompt, nKeep, addBos);
    var embd: seq<int>, consumed: nat, remain, i: nat := [], 0, nPredict, 0;
    ghost var first := Batches(|prompt|, g.nBatch);
    sampled := [];
    while i < steps && remain != 0
      invariant InRun(g, prompt, consumed, sampled, embd)
      invariant sampled == [] ==> ReadSoFar(|prompt|, g.nBatch, i, consumed) && i <= first
      invariant sampled != [] ==> i == first + |sampled|
      invariant forall j :: 0 <= j < |sampled| ==> sampled[j] == sample(first + j)
      invariant i <= steps && remain == nPredict - |sampled| && (nPredict >= 0 ==> remain >= 0)
    {
      var stopped := RunStep(g, prompt, consumed, sampled, embd);
      if stopped {
        break;
      }
      if |prompt| <= consumed {
        if sampled == [] { BatchesThrough(|prompt|, g.nBatch, i, consumed); }
        var id := sample(i);
        SampleTaken(g, prompt, consumed, sampled, id);
        embd := [id];
        sampled := sampled + [id];
        remain := remain - 1;
      } else {
        ghost var start := consumed;
        NextRead(|prompt|, g.nBatch, i, consumed);
        embd, consumed := NextTokens(prompt, consumed, g.nBatch);
        PromptTaken(g, prompt, start, consumed, sampled);
      }
      if ends(i) {
        break;
      }
      i := i + 1;
    }
    RunStands(g, prompt, consumed, sampled, embd);
  }

  lemma RunStarts(g: Generator, prompt: seq<int>, nKeep: int, addBos: bool)
    requires g.Valid() && g.history == [] && g.shifts == g.dropped == 0
    requires 0 < |prompt| <= g.nCtx - 4
    requires g.gaN == 1 ==> g.nKeep == KeepCount(nKeep, |prompt|, addBos)
    ensures InRun(g, prompt, 0, [], []) && ReadSoFar(|prompt|, g.nBatch, 0, 0)
  {
  }

  lemma BatchesThrough(size: nat, nBatch: nat, i: nat, consumed: nat)
    requires nBatch > 0 && 0 < size <= consumed && ReadSoFar(size, nBatch, i, consumed)
    ensures i == Batches(size, nBatch)
  {
    BatchesReached(size, nBatch, i);
  }

  lemma SampleTaken(g: Generator, prompt: seq<int>, consumed: nat, sampled: seq<int>, id: int)
    requires InRun(g, prompt, consumed, sampled, []) && |prompt| <= consumed
    ensures InRun(g, prompt, consumed, sampled + [id], [id])
  {
    assert g.history == g.history + [];
    assert (prompt[..consumed] + sampled) + [id] == prompt[..consumed] + (sampled + [id]);
  }

  lemma PromptTaken(g: Generator, prompt: seq<int>, start: nat, consumed: nat, sampled: seq<int>)
    requires start < |prompt| && InRun(g, prompt, start, sampled, []) && start <= consumed <= |prompt|
    ensures sampled == [] && InRun(g, prompt, consumed, sampled, prompt[start..consumed])
  {
    assert g.history == g.history + [] == prompt[..start];
    assert prompt[..start] + prompt[start..consumed] == prompt[..consumed] + sampled;
  }

  lemma RunStands(g: Generator, prompt: seq<int>, consumed: nat, sampled: seq<int>, embd: seq<int>)
    requires InRun(g, prompt, consumed, sampled, embd)
    ensures g.Valid() && g.history <= prompt + sampled
    ensures sampled != [] ==> |g.history| + 1 >= |prompt| + |sampled|
    ensures g.gaN == 1 ==> g.nPast <= g.nCtx - 1 && g.shifts <= g.dropped
  {
    var all := prompt[..consumed] + sampled;
    assert g.history + embd == all;
    assert g.history == all[..|g.history|];
    assert all <= prompt + sampled;
  }
}
