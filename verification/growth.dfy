/**
 Hidden-layer growth: a network of the next depth is created, the old tags
 and weights are migrated into it, and the new layer's weight block is given
 an identity bypass (new neuron j listens to neuron j of the layer before it
 with the given weight, every other new weight stays zero).

 The source locates the new block with a per-layer stride of H + 1 where a
 hidden-to-hidden layer holds (H + 1) * H weights. `AddHiddenLayerAsWritten`
 keeps that computation; `AddHiddenLayer` uses the layout's own block start.
 `WeightAtHiddenLayerAsWritten` states exactly when the two coincide.
 */
module Growth {
  import opened Layout
  import opened Network

  /**
   The networks the source grows into a consistent layout: those with a
   hidden layer, and those without one whose hidden width equals the input
   width, so that the old output runs already have H + 1 slots.
   */
  predicate Growable(net: Net)
  {
    Valid(net) && (net.nhiddenLayers > 0 || net.nhiddens == net.ninputs)
  }

  /** Size facts of one more hidden layer, for a growable topology. */
  lemma GrowthSizes(I: nat, H: nat, O: nat, L: nat)
    requires L > 0 || H == I
    ensures HiddenWeights(I, H, O, L + 1) == HiddenWeights(I, H, O, L) + (H + 1) * H
    ensures OutputWeights(I, H, O, L + 1) == OutputWeights(I, H, O, L) == (H + 1) * O
    ensures TotalWeights(I, H, O, L + 1) == TotalWeights(I, H, O, L) + (H + 1) * H
    ensures TotalActivations(H, O, L + 1) == TotalActivations(H, O, L) + H
  {
    if L == 0 {
      assert (I + 1) * H == (H + 1) * H;
    } else {
      assert L * (H + 1) * H == (L - 1) * (H + 1) * H + (H + 1) * H;
    }
    assert H * (L + 1) == H * L + H;
  }

  /**
   The source's pointer to the weights leaving hidden layer `layer` (the
   block feeding layer `layer` + 1): past the input block, one stride of
   H + 1 per layer. It never lies past the layout's block start, and equals
   it exactly for the first hidden layer or for width one.
   */
  function WeightAtHiddenLayerAsWritten(net: Net, layer: nat): (r: nat)
    requires layer < net.nhiddenLayers
    ensures net.nhiddens > 0 ==> r <= WeightAtHiddenLayer(net, layer)
    ensures r == WeightAtHiddenLayer(net, layer) <==> layer == 0 || net.nhiddens == 1
  {
    StrideGap(net.nhiddens, layer);
    (net.ninputs + 1) * net.nhiddens + (net.nhiddens + 1) * layer
  }

  /**
   Where the weights leaving hidden layer `layer` start: the bias slot of the
   first neuron of the next layer in the reference layout.
   */
  function WeightAtHiddenLayer(net: Net, layer: nat): (r: nat)
    requires layer < net.nhiddenLayers
    ensures r == RunStart(net.ninputs, net.nhiddens, net.nhiddenLayers, (layer + 1) * net.nhiddens)
  {
    var I, H, L := net.ninputs, net.nhiddens, net.nhiddenLayers;
    assert (layer + 1) * H - H == layer * H;
    assert layer * H * (H + 1) == (H + 1) * H * layer;
    RunStartLaterLayers(I, H, L, (layer + 1) * H);
    (I + 1) * H + (H + 1) * H * layer
  }

  /** A stride of H + 1 per layer falls short of one of (H + 1) * H, except on layer 0 or for width one. */
  lemma StrideGap(H: nat, layer: nat)
    ensures H > 0 ==> (H + 1) * layer <= (H + 1) * H * layer
    ensures (H + 1) * layer == (H + 1) * H * layer <==> layer == 0 || H == 1
  {
    assert (H + 1) * H * layer == H * ((H + 1) * layer);
    if layer > 0 && H > 1 {
      MulMonotone(2, H, (H + 1) * layer);
      assert (H + 1) * layer > 0;
    } else if H > 0 {
      MulMonotone(1, H, (H + 1) * layer);
    }
  }

  /**
   memcpy of `len` items of `src` from `from` over `dst` at `at`: the window
   takes the source items, everything else keeps the destination's.
   */
  function CopyInto<T>(dst: seq<T>, at: nat, src: seq<T>, from: nat, len: nat): (r: seq<T>)
    requires at + len <= |dst| && from + len <= |src|
    ensures |r| == |dst|
    ensures forall i :: 0 <= i < at ==> r[i] == dst[i]
    ensures forall i :: at <= i < at + len ==> r[i] == src[from + (i - at)]
    ensures forall i :: at + len <= i < |r| ==> r[i] == dst[i]
  {
    dst[..at] + src[from..from + len] + dst[at + len..]
  }

  /**
   The two copies of one segment during growth: the first `head` old items
   go to the front, the last `tail` old items go to offset `at`; in between
   the new segment keeps its own items.
   */
  function Spread<T>(dst: seq<T>, src: seq<T>, head: nat, at: nat, tail: nat): (r: seq<T>)
    requires |src| == head + tail && |dst| == at + tail && head <= at
    ensures |r| == |dst|
    ensures forall i :: 0 <= i < head ==> r[i] == src[i]
    ensures forall i :: head <= i < at ==> r[i] == dst[i]
    ensures forall i :: at <= i < |r| ==> r[i] == src[i - (at - head)]
  {
    CopyInto(CopyInto(dst, 0, src, 0, head), at, src, head, tail)
  }

  /**
   The tags of the grown network: the old hidden tags as its prefix, the H
   passthrough tags of the new layer, then the old output tags. The tags of a
   created network are all passthrough, so the new layer's stay so.
   */
  function MigrateTags(net: Net): (r: seq<Activation>)
    requires Valid(net)
    ensures |r| == net.nactivations + net.nhiddens
    ensures var hl := net.nactivations - net.noutputs;
            && (forall t :: 0 <= t < hl ==> r[t] == net.activation[t])
            && (forall t :: hl <= t < hl + net.nhiddens ==> r[t] == Passthrough)
            && (forall t :: hl + net.nhiddens <= t < |r| ==> r[t] == net.activation[t - net.nhiddens])
  {
    var n := net.nactivations + net.nhiddens;
    var hidden := net.nactivations - net.noutputs;
    TotalActivationsIs(net.nhiddens, net.noutputs, net.nhiddenLayers);
    Spread(seq(n, _ => Passthrough), net.activation, hidden, n - net.noutputs, net.noutputs)
  }

  /**
   The weights of the grown network: the old weights before the output block
   as its prefix, (H + 1) * H zero weights for the new layer, then the old
   output block.
   */
  function MigrateWeights(net: Net): (r: seq<real>)
    requires Growable(net)
    ensures |r| == net.nweights + (net.nhiddens + 1) * net.nhiddens
    ensures HiddenWeights(net.ninputs, net.nhiddens, net.noutputs, net.nhiddenLayers) <= net.nweights <= |r|
    ensures var p, nnew := HiddenWeights(net.ninputs, net.nhiddens, net.noutputs, net.nhiddenLayers), (net.nhiddens + 1) * net.nhiddens;
            && (forall i :: 0 <= i < p ==> r[i] == net.weight[i])
            && (forall i :: p <= i < p + nnew ==> r[i] == 0.0)
            && (forall i :: p + nnew <= i < |r| ==> r[i] == net.weight[i - nnew])
  {
    var I, H, O, L := net.ninputs, net.nhiddens, net.noutputs, net.nhiddenLayers;
    ValidSizes(net);
    GrowthSizes(I, H, O, L);
    var deeper := Create(I, H, O, L + 1);
    var nout := OutputWeights(I, H, O, L + 1);
    var p := HiddenWeights(I, H, O, L);
    assert net.nweights == p + nout;
    assert deeper.nweights == p + (H + 1) * H + nout;
    Spread(deeper.weight, net.weight, p, p + (H + 1) * H, nout)
  }

  /**
   The migration step of growth, from a growable network: a new network one
   layer deeper, zero-filled with bias -1 (the old bias is not carried over), into which the old tags and weights are copied.
   */
  function Migrate(net: Net): (r: Net)
    requires Growable(net)
    ensures Valid(r)
    ensures r.ninputs == net.ninputs && r.nhiddens == net.nhiddens && r.noutputs == net.noutputs
    ensures r.nhiddenLayers == net.nhiddenLayers + 1
    ensures r.nactivations == net.nactivations + net.nhiddens
    ensures r.bias == -1.0 && AllZero(r.output)
    ensures r.activation == MigrateTags(net) && r.weight == MigrateWeights(net)
  {
    var I, H, O, L := net.ninputs, net.nhiddens, net.noutputs, net.nhiddenLayers;
    GrowthSizes(I, H, O, L);
    ValidSizes(net);
    var deeper := Create(I, H, O, L + 1);
    deeper.(activation := MigrateTags(net), weight := MigrateWeights(net))
  }

  /**
   The migration's prefix copy follows the runs: in the deeper layout every
   old hidden neuron keeps its run where it was, with the same fan-in.
   */
  lemma MigrationKeepsHiddenRuns(I: nat, H: nat, L: nat, t: nat)
    requires t <= H * L
    ensures RunStart(I, H, L + 1, t) == RunStart(I, H, L, t)
    ensures t < H * L ==> FanIn(I, H, L + 1, t) == FanIn(I, H, L, t)
  {
    if t <= H {
      RunStartFirstLayer(I, H, L, t);
      RunStartFirstLayer(I, H, L + 1, t);
    } else {
      assert L > 0;
      RunStartLaterLayers(I, H, L, t);
      RunStartLaterLayers(I, H, L + 1, t);
    }
  }

  /**
   The migration's tail copy follows the runs: in the deeper layout every old
   output neuron's run moves by exactly the (H + 1) * H slots of the new
   block, and still reads H values (with no old hidden layer, H = I values).
   */
  lemma MigrationShiftsOutputRuns(I: nat, H: nat, L: nat, t: nat)
    requires (L > 0 || H == I) && t >= H * L
    ensures RunStart(I, H, L + 1, t + H) == RunStart(I, H, L, t) + (H + 1) * H
    ensures FanIn(I, H, L + 1, t + H) == FanIn(I, H, L, t) == H
  {
    RunStartLaterLayers(I, H, L + 1, t + H);
    if L == 0 {
      RunStartFirstLayer(I, H, L, t);
      assert (I + 1) * H + t * (H + 1) == t * (I + 1) + (H + 1) * H;
    } else {
      MulMonotone(1, L, H);
      var d: nat := t - H;
      RunStartLaterLayers(I, H, L, t);
      assert t * (H + 1) == d * (H + 1) + (H + 1) * H;
    }
  }

  /** Slot `k` of the run of neuron `j` in a block of runs of H + 1 slots starting at `start`. */
  function BlockSlot(start: nat, H: nat, j: nat, k: nat): (r: nat)
    ensures j < H && k <= H ==> start <= r < start + (H + 1) * H
  {
    RowInBlock(H, j);
    start + j * (H + 1) + k
  }

  /** A run of H + 1 slots starting at row j < H of the block ends inside it. */
  lemma RowInBlock(H: nat, j: nat)
    ensures j < H ==> (j + 1) * (H + 1) <= (H + 1) * H
  {
    if j < H {
      MulMonotone(j + 1, H, H + 1);
    }
  }

  /** Inside a block of H runs, each (neuron, slot) pair names its own slot of the block. */
  lemma BlockSlotInjective(start: nat, H: nat, a: nat, k: nat, b: nat, l: nat)
    requires k <= H && l <= H
    ensures BlockSlot(start, H, a, k) == BlockSlot(start, H, b, l) <==> a == b && k == l
  {
    if a < b {
      RowsApart(H, a, k, b, l);
    } else if b < a {
      RowsApart(H, b, l, a, k);
    }
  }

  /** A slot of an earlier row of H + 1 slots comes before every slot of a later row. */
  lemma RowsApart(H: nat, a: nat, k: nat, b: nat, l: nat)
    requires a < b && k <= H
    ensures a * (H + 1) + k < b * (H + 1) + l
  {
    MulMonotone(a + 1, b, H + 1);
  }

  /** After j bypass writes the cursor is below the block's end exactly when j < H. */
  lemma StrideCount(H: nat, j: nat)
    requires H > 0
    ensures j * (H + 2) < (H + 1) * H <==> j < H
  {
    if j < H {
      MulMonotone(j, H - 1, H + 2);
      assert (H - 1) * (H + 2) == (H + 1) * H - 2;
    } else {
      MulMonotone(H, j, H + 2);
    }
  }

  /** The bypass cursor after j steps of H + 2: slot j + 1 of neuron j. */
  lemma CursorIsDiagonal(start: nat, H: nat, j: nat)
    ensures start + 1 + j * (H + 2) == BlockSlot(start, H, j, j + 1)
  {
  }

  /**
   The bypass loop of growth over the block of H runs starting at `start`: a
   cursor one past the bias slot, writing `v` and stepping H + 2 slots while
   it stays below the end of the `nnew` new weights (the first write is
   unconditional). It writes exactly slot j + 1 (fan-in j) of run j, for every
   j < H, and nothing else.
   */
  method WriteBypass(ws: seq<real>, start: nat, H: nat, nnew: nat, v: real) returns (r: seq<real>)
    requires H > 0 && nnew == (H + 1) * H && start + nnew <= |ws|
    ensures |r| == |ws|
    ensures forall i :: 0 <= i < |ws| && !(start <= i < start + nnew) ==> r[i] == ws[i]
    ensures forall j, k :: 0 <= j < H && 0 <= k <= H ==>
              r[BlockSlot(start, H, j, k)] == if k == j + 1 then v else ws[BlockSlot(start, H, j, k)]
  {
    var stride := H + 2;
    var pos := start + 1;
    var finish := pos + nnew;
    ghost var j := 0;
    r := ws[pos := v];
    pos, j := pos + stride, j + 1;
    StrideCount(H, j);
    while pos < finish
      invariant 1 <= j <= H
      invariant pos == start + 1 + j * (H + 2)
      invariant pos < finish <==> j < H
      invariant |r| == |ws|
      invariant forall i :: 0 <= i < |ws| && !(start <= i < start + nnew) ==> r[i] == ws[i]
      invariant forall a, k :: 0 <= a < H && 0 <= k <= H ==>
                  r[BlockSlot(start, H, a, k)] == if k == a + 1 && a < j then v else ws[BlockSlot(start, H, a, k)]
    {
      CursorIsDiagonal(start, H, j);
      forall a, k | 0 <= a < H && 0 <= k <= H {
        BlockSlotInjective(start, H, a, k, j, j + 1);
      }
      r := r[pos := v];
      pos, j := pos + stride, j + 1;
      StrideCount(H, j);
    }
  }

  /**
   Where the grown network `m` keeps the new layer's block: at the weights
   leaving the layer before the new one, or at the start of the weights when
   the new layer is the first. That is where the old hidden weights end.
   */
  function NewBlock(m: Net): (r: nat)
    requires m.nhiddenLayers > 0
    ensures r == HiddenWeights(m.ninputs, m.nhiddens, m.noutputs, m.nhiddenLayers - 1)
  {
    var newLayer := m.nhiddenLayers - 1;
    if newLayer == 0 then 0
    else
      MigrationKeepsHiddenRuns(m.ninputs, m.nhiddens, newLayer, m.nhiddens * newLayer);
      assert (newLayer - 1 + 1) * m.nhiddens == m.nhiddens * newLayer;
      WeightAtHiddenLayer(m, newLayer - 1)
  }

  /**
   The source's location of the new layer's block in the grown network `m`:
   the start of the weights when the new layer is the first, otherwise its
   pointer to the weights leaving the layer before. It is never later than
   the layout's, and equal to it exactly when at most one old hidden layer
   exists or the width is one.
   */
  function NewBlockAsWritten(m: Net): (r: nat)
    requires m.nhiddenLayers > 0
    ensures m.nhiddens > 0 ==> r <= NewBlock(m)
    ensures r == NewBlock(m) <==> m.nhiddenLayers <= 2 || m.nhiddens == 1
  {
    var newLayer := m.nhiddenLayers - 1;
    if newLayer == 0 then 0 else WeightAtHiddenLayerAsWritten(m, newLayer - 1)
  }

  /**
   `r` is the migration of `net` with the identity bypass of `weight` written
   over the block of H runs starting at `start`: fan-in j of run j holds
   `weight`, and every other weight is the migration's.
   */
  predicate BypassedAt(net: Net, weight: real, start: nat, r: Net)
    requires Growable(net)
  {
    var m, H := Migrate(net), net.nhiddens;
    && r == m.(weight := r.weight) && |r.weight| == |m.weight|
    && start + (H + 1) * H <= |r.weight|
    && (forall i :: 0 <= i < |r.weight| && !(start <= i < start + (H + 1) * H) ==> r.weight[i] == m.weight[i])
    && (forall j, k :: 0 <= j < H && 0 <= k <= H ==>
          r.weight[BlockSlot(start, H, j, k)] == if k == j + 1 then weight else m.weight[BlockSlot(start, H, j, k)])
  }

  /** Migration followed by the bypass over the block starting at `start`: the shared tail of both growth variants. */
  method Grow(net: Net, weight: real, start: nat) returns (r: Net)
    requires Growable(net)
    requires start <= HiddenWeights(net.ninputs, net.nhiddens, net.noutputs, net.nhiddenLayers)
    ensures r.nhiddenLayers == net.nhiddenLayers + 1
    ensures BypassedAt(net, weight, start, r)
  {
    var m := Migrate(net);
    var nnew := m.nweights - net.nweights;
    var ws := WriteBypass(m.weight, start, net.nhiddens, nnew, weight);
    r := m.(weight := ws);
  }

  /**
   Growth as the source writes it: the bypass is written from the source's
   block location (`NewBlockAsWritten`). That is the new block only for at
   most one old hidden layer or width one; otherwise the writes land among
   the copied old weights.
   */
  method AddHiddenLayerAsWritten(net: Net, weight: real) returns (r: Net)
    requires Growable(net)
    ensures r.nhiddenLayers == net.nhiddenLayers + 1 && r.nhiddens == net.nhiddens
    ensures BypassedAt(net, weight, NewBlockAsWritten(Migrate(net)), r)
  {
    var m := Migrate(net);
    var start := NewBlockAsWritten(m);
    r := Grow(net, weight, start);
  }

  /**
   Growth with the new block located by the layout: the migrated network (see
   `Migrate`), in which the block of the new layer's runs, right after the
   old hidden weights, holds `weight` at fan-in j of run j and zero
   everywhere else. Nothing outside that block differs from the migration.
   */
  method AddHiddenLayer(net: Net, weight: real) returns (r: Net)
    requires Growable(net)
    ensures r.nhiddenLayers == net.nhiddenLayers + 1 && r.nhiddens == net.nhiddens && Valid(r)
    ensures BypassedAt(net, weight, HiddenWeights(net.ninputs, net.nhiddens, net.noutputs, net.nhiddenLayers), r)
    ensures var H, p := net.nhiddens, HiddenWeights(net.ninputs, net.nhiddens, net.noutputs, net.nhiddenLayers);
            forall j, k :: 0 <= j < H && 0 <= k <= H ==>
              r.weight[BlockSlot(p, H, j, k)] == if k == j + 1 then weight else 0.0
  {
    var m := Migrate(net);
    var start := NewBlock(m);
    r := Grow(net, weight, start);
    var H, nnew := net.nhiddens, (net.nhiddens + 1) * net.nhiddens;
    forall j, k | 0 <= j < H && 0 <= k <= H
      ensures r.weight[BlockSlot(start, H, j, k)] == if k == j + 1 then weight else 0.0
    {
      assert start <= BlockSlot(start, H, j, k) < start + nnew;
    }
  }

  /**
   The new layer's block is the runs of the new neurons H*L .. H*L + H - 1
   of the grown topology: slot k of block run j is slot k of the run of new
   neuron j.
   */
  lemma NewBlockIsNewRuns(I: nat, H: nat, O: nat, L: nat, j: nat, k: nat)
    requires (L > 0 || H == I) && j < H && k <= H
    ensures BlockSlot(HiddenWeights(I, H, O, L), H, j, k) == RunStart(I, H, L + 1, H * L + j) + k
  {
    if L == 0 {
      RunStartFirstLayer(I, H, L + 1, j);
      return;
    }
    var m: nat := L - 1;
    var t := H * L + j;
    assert t - H == H * m + j by {
      assert H * L == H * m + H;
    }
    RunStartLaterLayers(I, H, L + 1, t);
    SpanSplit(H, m, j);
    assert HiddenWeights(I, H, O, L) == (I + 1) * H + m * (H + 1) * H;
  }

  lemma SpanSplit(H: nat, m: nat, j: nat)
    ensures (H * m + j) * (H + 1) == m * (H + 1) * H + j * (H + 1)
  {
    assert (H * m + j) * (H + 1) == (H * m) * (H + 1) + j * (H + 1);
    assert (H * m) * (H + 1) == m * (H + 1) * H;
  }

  /**
   Each new neuron reads the H values of the last old hidden layer, so
   fan-in j of new neuron j, where the bypass puts its weight, is the value
   of neuron j of the layer before it.
   */
  lemma NewLayerReadsLastHidden(I: nat, H: nat, L: nat, j: nat)
    requires (L > 0 || H == I) && j < H
    ensures FanIn(I, H, L + 1, H * L + j) == H
    ensures InputBase(I, H, L + 1, H * L + j) == if L == 0 then 0 else I + H * (L - 1)
  {
    if L == 0 {
      return;
    }
    var t := H * L + j;
    LayerOfNeuron(H, L + 1, L, t);
    InputWindow(I, H, L + 1, t);
    assert (L - 1) * H == H * (L - 1);
  }

  /**
   With two hidden layers of width two and one input and output, the source's
   pointer for the new block is 7 instead of 10, so its first bypass write,
   at slot 8, lands on fan-in 0 of old hidden neuron 3, a copied old weight.
   */
  lemma StrideBugOverwritesOldWeight()
    ensures var m := Create(1, 2, 1, 3);
            && WeightAtHiddenLayerAsWritten(m, 1) == 7
            && WeightAtHiddenLayer(m, 1) == 10 == HiddenWeights(1, 2, 1, 2)
            && BlockSlot(7, 2, 0, 1) == 8
            && RunStart(1, 2, 2, 3) + 1 == 8
  {
    RunStartLaterLayers(1, 2, 2, 3);
  }

  /**
   Growth from a network without hidden layers and a hidden width above the
   input width is outside `Growable`: the source's first weight copy has
   length nweights - O * (H + 1) over an old network of O * (I + 1) weights,
   which is negative, so wraps around as an unsigned size.
   */
  lemma GrowthFromNoHiddenLayerUnderflows(I: nat, H: nat, O: nat)
    requires O > 0 && H > I
    ensures TotalWeights(I, H, O, 0) < OutputWeights(I, H, O, 1)
  {
    MulMonotone(I + 1, H + 1, O);
    assert (I + 1) * O < (H + 1) * O;
  }

  /**
   With a hidden width below the input width, growth from no hidden layer is
   outside `Growable` too: three inputs, one hidden neuron and three outputs
   give a grown network of 10 weights against 12 old ones, so the source's
   count of new weights wraps around, and the old output weights do not fit
   the new output runs of H + 1 slots.
   */
  lemma GrowthFromNoHiddenLayerShrinks()
    ensures TotalWeights(3, 1, 3, 1) == 10 < TotalWeights(3, 1, 3, 0) == 12
    ensures OutputWeights(3, 1, 3, 1) != OutputWeights(3, 1, 3, 0)
  {
  }
}
