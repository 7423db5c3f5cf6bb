/** The layer feeder of lab8/kern/driver/cnn.c: cnn_run pushes the first burst of layers to the argument FIFO, and
    every interrupt that calls cnn_continue pushes the next. */
module Cnn {
  import opened Common

  /** cnn_layer_argument_t: twelve 64-bit registers. */
  datatype Layer = Layer(interruptEnable: nat, imageAddr: nat, imageChannelNum: nat, imageSize: nat,
                         kernelPoolTypeCfg: nat, kernelLoadCfg: nat, kernelOffset: nat, kernelCalcTypeCfg: nat,
                         writeBackCfg: nat, convValue: nat, convValue2: nat, dmaParameter: nat)

  /** The registers in the order in which the FIFO takes them. */
  function Registers(l: Layer): (r: seq<nat>)
    ensures |r| == 12
  {
    [l.interruptEnable, l.imageAddr, l.imageChannelNum, l.imageSize, l.kernelPoolTypeCfg, l.kernelLoadCfg,
     l.kernelOffset, l.kernelCalcTypeCfg, l.writeBackCfg, l.convValue, l.convValue2, l.dmaParameter]
  }

  /** The registers of all layers, one layer after the other. */
  function Words(ls: seq<Layer>): (r: seq<nat>)
    ensures |r| == 12 * |ls|
  {
    if ls == [] then [] else Words(ls[..|ls| - 1]) + Registers(ls[|ls| - 1])
  }

  /** The twelve words from `at` on are the fields of the layer. */
  ghost predicate LayerAt(words: seq<nat>, at: nat, l: Layer) {
    && at + 12 <= |words|
    && words[at] == l.interruptEnable
    && words[at + 1] == l.imageAddr
    && words[at + 2] == l.imageChannelNum
    && words[at + 3] == l.imageSize
    && words[at + 4] == l.kernelPoolTypeCfg
    && words[at + 5] == l.kernelLoadCfg
    && words[at + 6] == l.kernelOffset
    && words[at + 7] == l.kernelCalcTypeCfg
    && words[at + 8] == l.writeBackCfg
    && words[at + 9] == l.convValue
    && words[at + 10] == l.convValue2
    && words[at + 11] == l.dmaParameter
  }

  /** The words of layer i begin at place 12 i: every field once, in this order. */
  lemma {:induction false} WordIs(ls: seq<Layer>, i: nat)
    requires i < |ls|
    ensures var w, l := Words(ls), ls[i];
            && w[12 * i] == l.interruptEnable
            && w[12 * i + 1] == l.imageAddr
            && w[12 * i + 2] == l.imageChannelNum
            && w[12 * i + 3] == l.imageSize
            && w[12 * i + 4] == l.kernelPoolTypeCfg
            && w[12 * i + 5] == l.kernelLoadCfg
            && w[12 * i + 6] == l.kernelOffset
            && w[12 * i + 7] == l.kernelCalcTypeCfg
            && w[12 * i + 8] == l.writeBackCfg
            && w[12 * i + 9] == l.convValue
            && w[12 * i + 10] == l.convValue2
            && w[12 * i + 11] == l.dmaParameter
  {
    WordOf(ls, i);
    FieldsOf(Words(ls), 12 * i, ls[i]);
  }

  lemma FieldsOf(words: seq<nat>, at: nat, l: Layer)
    requires at + 12 <= |words| && words[at..at + 12] == Registers(l)
    ensures LayerAt(words, at, l)
  {
    var r := words[at..at + 12];
    assert words[at] == r[0] && words[at + 1] == r[1] && words[at + 2] == r[2] && words[at + 3] == r[3];
    assert words[at + 4] == r[4] && words[at + 5] == r[5] && words[at + 6] == r[6] && words[at + 7] == r[7];
    assert words[at + 8] == r[8] && words[at + 9] == r[9] && words[at + 10] == r[10] && words[at + 11] == r[11];
  }

  lemma {:induction false} WordOf(ls: seq<Layer>, i: nat)
    requires i < |ls|
    ensures Words(ls)[12 * i..12 * i + 12] == Registers(ls[i])
  {
    var n := |ls| - 1;
    if i < n {
      WordOf(ls[..n], i);
      assert Words(ls)[..12 * n] == Words(ls[..n]);
      assert Words(ls)[12 * i..12 * i + 12] == Words(ls)[..12 * n][12 * i..12 * i + 12];
    }
  }

  /** The same behind what the FIFO took before. */
  lemma StreamIs(before: seq<nat>, ls: seq<Layer>)
    ensures forall i :: 0 <= i < |ls| ==> LayerAt(before + Words(ls), |before| + 12 * i, ls[i])
  {
    forall i | 0 <= i < |ls| ensures LayerAt(before + Words(ls), |before| + 12 * i, ls[i]) {
      WordIs(ls, i);
    }
  }

  lemma {:induction false} WordsConcat(a: seq<Layer>, b: seq<Layer>)
    ensures Words(a + b) == Words(a) + Words(b)
    decreases |b|
  {
    if b == [] {
      assert a + b == a;
    } else {
      var n := |b| - 1;
      assert (a + b)[..|a + b| - 1] == a + b[..n];
      WordsConcat(a, b[..n]);
    }
  }

  /** One layer more behind what was there. */
  lemma WordsSnoc(before: seq<nat>, ls: seq<Layer>, i: nat)
    requires i < |ls|
    ensures before + Words(ls[..i]) + Registers(ls[i]) == before + Words(ls[..i + 1])
  {
    assert ls[..i + 1][..i] == ls[..i];
    assert before + Words(ls[..i]) + Registers(ls[i]) == before + (Words(ls[..i]) + Registers(ls[i]));
  }

  /** The device: everything that was written to its FIFO register. */
  class Kpu {
    var fifo: seq<nat>

    method Push(w: nat)
      modifies this
      ensures fifo == old(fifo) + [w]
    {
      fifo := fifo + [w];
    }

    /** The twelve writes for one layer. */
    method PushLayer(l: Layer)
      modifies this
      ensures fifo == old(fifo) + Registers(l) && LayerAt(fifo, |old(fifo)|, l)
    {
      Push(l.interruptEnable);
      Push(l.imageAddr);
      Push(l.imageChannelNum);
      Push(l.imageSize);
      Push(l.kernelPoolTypeCfg);
      Push(l.kernelLoadCfg);
      Push(l.kernelOffset);
      Push(l.kernelCalcTypeCfg);
      Push(l.writeBackCfg);
      Push(l.convValue);
      Push(l.convValue2);
      Push(l.dmaParameter);
    }
  }

  class Task {
    const table: array<Layer>
    var layers: nat              // the pointer into the table
    var length: nat
    var dstLength: nat

    ghost predicate Valid()
      reads this
    {
      layers + length <= table.Length
    }

    /** The layers still to be pushed. */
    ghost function Pending(): seq<Layer>
      requires Valid()
      reads this, table
    {
      table[layers..layers + length]
    }

    constructor (ls: array<Layer>)
      ensures Valid() && table == ls && layers == 0 && length == ls.Length && Pending() == ls[..]
    {
      table, layers, length, dstLength := ls, 0, ls.Length, 0;
    }
  }

  /** One loop of pushes, for the first n pending layers. */
  method PushLayers(task: Task, kpu: Kpu, n: nat)
    requires task.Valid() && n <= task.length
    modifies kpu
    ensures kpu.fifo == old(kpu.fifo) + Words(task.Pending()[..n])
  {
    ghost var pending := task.Pending();
    var i: nat := 0;
    while i < n
      invariant i <= n && kpu.fifo == old(kpu.fifo) + Words(pending[..i])
    {
      WordsSnoc(old(kpu.fifo), pending, i);
      assert task.table[task.layers + i] == pending[i];
      kpu.PushLayer(task.table[task.layers + i]);
      i := i + 1;
    }
  }

  /** cnn_continue: at most twelve layers are pushed, and those are no longer pending. */
  method CnnContinue(task: Task, kpu: Kpu)
    requires task.Valid()
    modifies task`layers, task`length, kpu
    ensures task.Valid() && task.Pending() == old(task.Pending())[Min(old(task.length), 12)..]
    ensures Pushed(old(kpu.fifo), kpu.fifo, old(task.Pending()), Min(old(task.length), 12))
  {
    PushedWords(kpu.fifo, task.Pending(), Min(task.length, 12));
    ContinueWords(task, kpu);
  }

  /** The same in terms of the stream of words. */
  method ContinueWords(task: Task, kpu: Kpu)
    requires task.Valid()
    modifies task`layers, task`length, kpu
    ensures task.Valid()
    ensures var n := Min(old(task.length), 12);
            kpu.fifo == old(kpu.fifo) + Words(old(task.Pending())[..n]) && task.Pending() == old(task.Pending())[n..]
  {
    if task.length == 0 {
      return;
    }
    if task.length <= 12 {
      PushLayers(task, kpu, task.length);
      task.length := 0;
    } else {
      PushLayers(task, kpu, 12);
      task.layers := task.layers + 12;
      task.length := task.length - 12;
    }
  }

  // ---------- the whole feed ----------

  /** A one-bit field at bit 0 set to 1. */
  function WithBit0(reg: nat): nat {
    if reg % 2 == 1 then reg else reg + 1
  }

  /** The last layer sends its data out and raises the interrupt. */
  function Marked(l: Layer): Layer {
    l.(dmaParameter := WithBit0(l.dmaParameter), interruptEnable := WithBit0(l.interruptEnable))
  }

  function MarkedLast(ls: seq<Layer>): seq<Layer>
    requires ls != []
  {
    ls[|ls| - 1 := Marked(ls[|ls| - 1])]
  }

  /** `all` is the table `ls` with the last layer marked: bit 0 of its interruptEnable and dmaParameter is 1, their
      other bits, its other fields and all other layers are unchanged. */
  ghost predicate LastMarked(ls: seq<Layer>, all: seq<Layer>) {
    && |all| == |ls| >= 1 && (forall i :: 0 <= i < |ls| - 1 ==> all[i] == ls[i])
    && var l, m := ls[|ls| - 1], all[|ls| - 1];
       && m.interruptEnable % 2 == 1 && m.interruptEnable / 2 == l.interruptEnable / 2
       && m.dmaParameter % 2 == 1 && m.dmaParameter / 2 == l.dmaParameter / 2
       && m.imageAddr == l.imageAddr && m.imageChannelNum == l.imageChannelNum && m.imageSize == l.imageSize
       && m.kernelPoolTypeCfg == l.kernelPoolTypeCfg && m.kernelLoadCfg == l.kernelLoadCfg
       && m.kernelOffset == l.kernelOffset && m.kernelCalcTypeCfg == l.kernelCalcTypeCfg
       && m.writeBackCfg == l.writeBackCfg && m.convValue == l.convValue && m.convValue2 == l.convValue2
  }

  lemma MarkedIs(ls: seq<Layer>)
    requires ls != []
    ensures LastMarked(ls, MarkedLast(ls))
  {
  }

  /** The first n layers of `all` were pushed behind `before`. */
  ghost predicate Pushed(before: seq<nat>, fifo: seq<nat>, all: seq<Layer>, n: nat) {
    && n <= |all| && |fifo| == |before| + 12 * n && fifo[..|before|] == before
    && forall i :: 0 <= i < n ==> LayerAt(fifo, |before| + 12 * i, all[i])
  }

  lemma PushedWords(before: seq<nat>, all: seq<Layer>, n: nat)
    requires n <= |all|
    ensures Pushed(before, before + Words(all[..n]), all, n)
  {
    StreamIs(before, all[..n]);
    forall i | 0 <= i < n ensures LayerAt(before + Words(all[..n]), |before| + 12 * i, all[i]) {
      assert all[..n][i] == all[i];
    }
  }

  /** cnn_run, up to the first burst: the layer table and the FIFO. */
  method CnnRun(task: Task, kpu: Kpu)
    requires task.Valid() && task.length >= 1
    modifies task, task.table, kpu
    ensures task.Valid()
    ensures task.dstLength == (old(task.Pending())[old(task.length) - 1].dmaParameter / 0x1_0000_0000
                               + 1) % 0x1_0000_0000
    ensures Run(old(kpu.fifo), kpu.fifo, old(task.Pending()), MarkedLast(old(task.Pending())), task.Pending())
  {
    RunIs(kpu.fifo, task.Pending());
    RunWords(task, kpu);
  }

  /** The table `ls` becomes `all`, of which at most twelve layers were pushed; the others are pending. */
  ghost predicate Run(before: seq<nat>, fifo: seq<nat>, ls: seq<Layer>, all: seq<Layer>, pending: seq<Layer>) {
    var n := Min(|ls|, 12);
    LastMarked(ls, all) && Pushed(before, fifo, all, n) && pending == all[n..]
  }

  lemma RunIs(before: seq<nat>, ls: seq<Layer>)
    requires ls != []
    ensures var all := MarkedLast(ls);
            var n := Min(|all|, 12);
            Run(before, before + Words(all[..n]), ls, all, all[n..])
  {
    MarkedIs(ls);
    PushedWords(before, MarkedLast(ls), Min(|ls|, 12));
  }

  method RunWords(task: Task, kpu: Kpu)
    requires task.Valid() && task.length >= 1
    modifies task, task.table, kpu
    ensures task.Valid()
    ensures var all := MarkedLast(old(task.Pending()));
            var n := Min(|all|, 12);
            && kpu.fifo == old(kpu.fifo) + Words(all[..n]) && task.Pending() == all[n..]
            && task.dstLength == (old(task.Pending())[|all| - 1].dmaParameter / 0x1_0000_0000 + 1) % 0x1_0000_0000
  {
    MarkLast(task);
    ghost var all := task.Pending();
    assert all == MarkedLast(old(task.Pending())) && kpu.fifo == old(kpu.fifo) && |all| == task.length;
    ContinueWords(task, kpu);
  }

  /** The fields of the last layer and of its cnn_task_t record. */
  method MarkLast(task: Task)
    requires task.Valid() && task.length >= 1
    modifies task`dstLength, task.table
    ensures task.Pending() == MarkedLast(old(task.Pending()))
    ensures task.dstLength == (old(task.Pending())[task.length - 1].dmaParameter / 0x1_0000_0000 + 1) % 0x1_0000_0000
  {
    var last := task.layers + task.length - 1;
    var outputSize := task.table[last].dmaParameter / 0x1_0000_0000 + 1;
    task.table[last] := Marked(task.table[last]);
    task.dstLength := outputSize % 0x1_0000_0000;
  }

  /** One interrupt, after the first n layers were pushed behind `before`. */
  method Interrupt(task: Task, kpu: Kpu, ghost before: seq<nat>, ghost all: seq<Layer>, ghost n: nat)
    returns (ghost n': nat)
    requires task.Valid() && n <= |all| && task.Pending() == all[n..] && kpu.fifo == before + Words(all[..n])
    modifies task`layers, task`length, kpu
    ensures task.Valid() && n' == n + Min(|all| - n, 12) && task.Pending() == all[n'..]
            && kpu.fifo == before + Words(all[..n'])
  {
    ghost var m := Min(|all| - n, 12);
    n' := n + m;
    NextBurst(before, all, n, m);
    assert |task.Pending()| == task.length;
    ContinueWords(task, kpu);
  }

  lemma OneMoreBurst(len: nat, k: nat)
    ensures var n := Min(len, 12 * (1 + k)); n + Min(len - n, 12) == Min(len, 12 * (1 + (k + 1)))
  {
  }

  /** A run followed by any number of interrupts: the FIFO holds the registers of the first 12 * (1 + interrupts)
      layers, or of all of them, in order and once each; when all were pushed, further interrupts push nothing. */
  method Feed(task: Task, kpu: Kpu, interrupts: nat)
    requires task.Valid() && task.length >= 1
    modifies task, task.table, kpu
    ensures task.Valid()
    ensures var all := MarkedLast(old(task.Pending()));
            var n := Min(|all|, 12 * (1 + interrupts));
            && LastMarked(old(task.Pending()), all)
            && Pushed(old(kpu.fifo), kpu.fifo, all, n) && task.Pending() == all[n..]
  {
    ghost var all := MarkedLast(task.Pending());
    MarkedIs(task.Pending());
    PushedWords(kpu.fifo, all, Min(|all|, 12 * (1 + interrupts)));
    FeedWords(task, kpu, interrupts);
  }

  /** The same in terms of the stream of words. */
  method FeedWords(task: Task, kpu: Kpu, interrupts: nat)
    requires task.Valid() && task.length >= 1
    modifies task, task.table, kpu
    ensures task.Valid()
    ensures var all := MarkedLast(old(task.Pending()));
            var n := Min(|all|, 12 * (1 + interrupts));
            kpu.fifo == old(kpu.fifo) + Words(all[..n]) && task.Pending() == all[n..]
  {
    ghost var all := MarkedLast(task.Pending());
    ghost var n := Min(|all|, 12);
    RunWords(task, kpu);
    var k: nat := 0;
    while k < interrupts
      invariant k <= interrupts && task.Valid() && n == Min(|all|, 12 * (1 + k))
      invariant kpu.fifo == old(kpu.fifo) + Words(all[..n]) && task.Pending() == all[n..]
    {
      OneMoreBurst(|all|, k);
      n := Interrupt(task, kpu, old(kpu.fifo), all, n);
      k := k + 1;
    }
  }

  lemma NextBurst(before: seq<nat>, all: seq<Layer>, n: nat, m: nat)
    requires n + m <= |all|
    ensures before + Words(all[..n]) + Words(all[n..][..m]) == before + Words(all[..n + m])
            && all[n..][m..] == all[n + m..]
  {
    assert all[..n] + all[n..][..m] == all[..n + m];
    WordsConcat(all[..n], all[n..][..m]);
    Assoc(before, Words(all[..n]), Words(all[n..][..m]));
    Tails(all, n, m);
  }

  lemma Tails(all: seq<Layer>, n: nat, m: nat)
    requires n + m <= |all|
    ensures all[n..][m..] == all[n + m..]
  {
  }

  /** The number of bursts that push everything. */
  lemma EnoughBursts(length: nat, bursts: nat)
    ensures Min(length, 12 * bursts) == length <==> bursts >= (length + 12 - 1) / 12
  {
  }
}
