/**
 Growth preserves behaviour: a network grown by one hidden layer whose new
 neurons pass the last hidden layer through with weight 1 computes the same
 outputs as the old network, provided the old bias is -1 (the grown network's
 bias) and the float operations have the identities the bypass relies on.
 */
module Preservation {
  import opened Layout
  import opened Network
  import opened Evaluate
  import opened Growth

  /**
   The laws a bypass run needs: a zero weight annihilates, a unit weight is
   the identity, zero is neutral for the add on both sides, and the
   passthrough tag returns its input. IEEE floats meet them for finite values
   only.
   */
  ghost predicate IdentityLaws(ops: Ops)
  {
    && (forall x :: Mul(ops, 0.0, x) == 0.0)
    && (forall x :: Mul(ops, 1.0, x) == x)
    && (forall x :: Add(ops, 0.0, x) == x)
    && (forall x :: Add(ops, x, 0.0) == x)
    && (forall x :: Activate(ops, Passthrough, x) == x)
  }

  /**
   `g` is `net` grown with a unit bypass over the block the layout gives the
   new layer (the result `AddHiddenLayer(net, 1.0)` promises), and `net`
   already has the bias -1 the grown network gets.
   */
  predicate BypassGrown(net: Net, g: Net)
  {
    && Growable(net) && net.bias == -1.0
    && BypassedAt(net, 1.0, HiddenWeights(net.ninputs, net.nhiddens, net.noutputs, net.nhiddenLayers), g)
    && Valid(g)
  }

  /**
   What growth leaves in the fields of `g`, stated field by field: the
   topology one layer deeper, the old hidden tags and weights in front, the
   passthrough tags and the bypass block of the new layer, then the old output
   tags and weights shifted past them.
   */
  predicate GrownShape(net: Net, g: Net)
  {
    KeepsHidden(net, g) && AddsBypass(net, g) && ShiftsOutputs(net, g)
  }

  /** The header of `g` is that of `net` one hidden layer deeper, with the weight segment (H + 1) * H longer. */
  predicate GrownHeader(net: Net, g: Net)
  {
    var I, H, O, L := net.ninputs, net.nhiddens, net.noutputs, net.nhiddenLayers;
    && Valid(net) && Valid(g) && (L > 0 || H == I) && O <= net.nactivations
    && g.ninputs == I && g.nhiddens == H && g.noutputs == O && g.nhiddenLayers == L + 1
    && g.bias == net.bias && net.nactivations - O == H * L && g.nactivations == net.nactivations + H
    && LastLayerBase(I, H, L) + H <= I + (net.nactivations - O)
    && RunStart(I, H, L, net.nactivations - O) <= |net.weight| <= |g.weight| && |g.weight| == |net.weight| + (H + 1) * H
  }

  /** The old hidden tags and weights stay in front. */
  predicate KeepsHidden(net: Net, g: Net)
  {
    && GrownHeader(net, g)
    && var hl := net.nactivations - net.noutputs;
       var p := RunStart(net.ninputs, net.nhiddens, net.nhiddenLayers, hl);
       && (forall t {:trigger g.activation[t]} :: 0 <= t < hl ==> g.activation[t] == net.activation[t])
       && (forall i {:trigger g.weight[i]} :: 0 <= i < p ==> g.weight[i] == net.weight[i])
  }

  /** The new layer: passthrough tags, and the bypass block right after the old hidden weights. */
  predicate AddsBypass(net: Net, g: Net)
  {
    && GrownHeader(net, g)
    && var H, hl := net.nhiddens, net.nactivations - net.noutputs;
       var p := RunStart(net.ninputs, H, net.nhiddenLayers, hl);
       && (forall t :: hl <= t < hl + H ==> g.activation[t] == Passthrough)
       && (forall j, k :: 0 <= j < H && 0 <= k <= H ==>
             g.weight[BlockSlot(p, H, j, k)] == if k == j + 1 then 1.0 else 0.0)
  }

  /** The old output tags and weights, shifted past the new layer. */
  predicate ShiftsOutputs(net: Net, g: Net)
  {
    && GrownHeader(net, g)
    && var H, hl := net.nhiddens, net.nactivations - net.noutputs;
       var p, nnew := RunStart(net.ninputs, H, net.nhiddenLayers, hl), (H + 1) * H;
       && (forall t :: hl + H <= t < |g.activation| ==> g.activation[t] == net.activation[t - H])
       && (forall i :: p + nnew <= i < |g.weight| ==> g.weight[i] == net.weight[i - nnew])
  }

  /** A network grown with a unit bypass has the grown shape. */
  lemma BypassGrownShape(net: Net, g: Net)
    requires BypassGrown(net, g)
    ensures GrownShape(net, g)
  {
    BypassKeepsHidden(net, g);
    BypassAddsBlock(net, g);
    BypassShiftsOutputs(net, g);
  }

  lemma BypassKeepsHidden(net: Net, g: Net)
    requires BypassGrown(net, g)
    ensures KeepsHidden(net, g)
  {
    BypassHeader(net, g);
  }

  lemma BypassAddsBlock(net: Net, g: Net)
    requires BypassGrown(net, g)
    ensures AddsBypass(net, g)
  {
    BypassHeader(net, g);
    var I, H, O, L := net.ninputs, net.nhiddens, net.noutputs, net.nhiddenLayers;
    var p, nnew := HiddenWeights(I, H, O, L), (H + 1) * H;
    forall j, k | 0 <= j < H && 0 <= k <= H
      ensures g.weight[BlockSlot(p, H, j, k)] == if k == j + 1 then 1.0 else 0.0
    {
      assert p <= BlockSlot(p, H, j, k) < p + nnew;
    }
  }

  lemma BypassShiftsOutputs(net: Net, g: Net)
    requires BypassGrown(net, g)
    ensures ShiftsOutputs(net, g)
  {
    BypassHeader(net, g);
    BypassShiftsTags(net, g);
    BypassShiftsWeights(net, g);
  }

  lemma BypassShiftsTags(net: Net, g: Net)
    requires BypassGrown(net, g)
    ensures var H, hl := net.nhiddens, net.nactivations - net.noutputs;
            forall t :: hl + H <= t < |g.activation| ==> g.activation[t] == net.activation[t - H]
  {
    assert g.activation == MigrateTags(net);
  }

  lemma BypassShiftsWeights(net: Net, g: Net)
    requires BypassGrown(net, g)
    ensures var H, hl := net.nhiddens, net.nactivations - net.noutputs;
            var p, nnew := RunStart(net.ninputs, H, net.nhiddenLayers, hl), (H + 1) * H;
            forall i :: p + nnew <= i < |g.weight| ==> g.weight[i] == net.weight[i - nnew]
  {
    HiddenRunsEnd(net);
    ShiftThrough(g.weight, Migrate(net).weight, net.weight,
                 HiddenWeights(net.ninputs, net.nhiddens, net.noutputs, net.nhiddenLayers),
                 RunStart(net.ninputs, net.nhiddens, net.nhiddenLayers, net.nactivations - net.noutputs),
                 (net.nhiddens + 1) * net.nhiddens);
  }

  /** The hidden runs of a well-formed network end where the hidden weights do. */
  lemma HiddenRunsEnd(net: Net)
    requires Valid(net)
    ensures RunStart(net.ninputs, net.nhiddens, net.nhiddenLayers, net.nactivations - net.noutputs)
            == HiddenWeights(net.ninputs, net.nhiddens, net.noutputs, net.nhiddenLayers)
  {
    TotalActivationsIs(net.nhiddens, net.noutputs, net.nhiddenLayers);
  }

  /**
   Items past a block that `g` takes from `m` everywhere outside the block,
   where `m` holds `n` shifted by the block's size, are `n`'s shifted items.
   The block starts at `p`, also named `q`.
   */
  lemma ShiftThrough(g: seq<real>, m: seq<real>, n: seq<real>, p: nat, q: nat, nnew: nat)
    requires |g| == |m| == |n| + nnew && q == p
    requires forall i :: 0 <= i < |g| && !(p <= i < p + nnew) ==> g[i] == m[i]
    requires forall i :: p + nnew <= i < |m| ==> m[i] == n[i - nnew]
    ensures forall i :: q + nnew <= i < |g| ==> g[i] == n[i - nnew]
  {
  }

  lemma BypassHeader(net: Net, g: Net)
    requires BypassGrown(net, g)
    ensures GrownHeader(net, g)
  {
    var I, H, O, L := net.ninputs, net.nhiddens, net.noutputs, net.nhiddenLayers;
    TotalActivationsIs(H, O, L);
    NewRunFacts(I, H, O, L, 0);
  }


  /** Weights before the new block are the old ones. */
  lemma HiddenWeightsKept(net: Net, g: Net, lo: nat, hi: nat)
    requires KeepsHidden(net, g) && hi < RunStart(net.ninputs, net.nhiddens, net.nhiddenLayers, net.nactivations - net.noutputs)
    ensures hi < |net.weight| && hi < |g.weight|
    ensures forall i {:trigger g.weight[i]} :: lo <= i <= hi ==> g.weight[i] == net.weight[i]
  {
  }

  /** A sum reads only its weight run and its value window. */
  lemma {:induction false} SumFrame(ops: Ops, ws: seq<real>, b: nat, ws': seq<real>, b': nat, bias: real,
                                    vals: seq<real>, base: nat, vals': seq<real>, base': nat, n: nat)
    requires b + n < |ws| && base + n <= |vals| && b' + n < |ws'| && base' + n <= |vals'|
    requires forall i :: b <= i <= b + n ==> ws[i] == ws'[i - b + b']
    requires forall i :: base <= i < base + n ==> vals[i] == vals'[i - base + base']
    ensures Sum(ops, ws, b, bias, vals, base, n) == Sum(ops, ws', b', bias, vals', base', n)
  {
    if n == 0 {
      assert ws[b] == ws'[b'];
    } else {
      SumFrame(ops, ws, b, ws', b', bias, vals, base, vals', base', n - 1);
      assert ws[b + n] == ws'[b' + n];
      assert vals[base + n - 1] == vals'[base' + n - 1];
    }
  }

  /**
   A bypass run, whose bias weight and fan-in weights are zero except a 1 at
   fan-in j, sums to the j-th value of its window once the sum has reached
   it, and to zero before.
   */
  lemma {:induction false} BypassSum(ops: Ops, ws: seq<real>, b: nat, bias: real, vals: seq<real>, base: nat, n: nat, j: nat)
    requires b + n < |ws| && base + n <= |vals| && IdentityLaws(ops)
    requires forall i :: b <= i <= b + n ==> ws[i] == if i == b + j + 1 then 1.0 else 0.0
    ensures Sum(ops, ws, b, bias, vals, base, n) == if n <= j then 0.0 else vals[base + j]
  {
    if n == 0 {
      assert ws[b] == 0.0;
      assert Mul(ops, 0.0, bias) == 0.0;
    } else {
      BypassSum(ops, ws, b, bias, vals, base, n - 1, j);
      var prev, x := Sum(ops, ws, b, bias, vals, base, n - 1), vals[base + n - 1];
      if n == j + 1 {
        assert ws[b + n] == 1.0;
        assert Mul(ops, 1.0, x) == x;
        assert Add(ops, 0.0, x) == x;
      } else {
        assert ws[b + n] == 0.0;
        assert Mul(ops, 0.0, x) == 0.0;
        if n <= j {
          assert Add(ops, 0.0, 0.0) == 0.0;
        } else {
          assert Add(ops, prev, 0.0) == prev;
        }
      }
    }
  }

  /**
   Two neurons, of two networks, compute the same value when they have the
   same tag, bias and fan-in, their runs hold the same weights and their
   windows the same values.
   */
  lemma NeuronValueFrame(a: Net, va: seq<real>, ta: nat, b: Net, vb: seq<real>, tb: nat, ops: Ops,
                         ra: nat, rb: nat, n: nat, ia: nat, ib: nat)
    requires Valid(a) && ta < a.nactivations && |va| == a.ninputs + ta
    requires Valid(b) && tb < b.nactivations && |vb| == b.ninputs + tb
    requires ra == RunStart(a.ninputs, a.nhiddens, a.nhiddenLayers, ta)
    requires rb == RunStart(b.ninputs, b.nhiddens, b.nhiddenLayers, tb)
    requires n == FanIn(a.ninputs, a.nhiddens, a.nhiddenLayers, ta) == FanIn(b.ninputs, b.nhiddens, b.nhiddenLayers, tb)
    requires ia == InputBase(a.ninputs, a.nhiddens, a.nhiddenLayers, ta)
    requires ib == InputBase(b.ninputs, b.nhiddens, b.nhiddenLayers, tb)
    requires a.activation[ta] == b.activation[tb] && a.bias == b.bias
    requires ra + n < |a.weight| && rb + n < |b.weight|
    requires forall i :: ra <= i <= ra + n ==> a.weight[i] == b.weight[i - ra + rb]
    requires ia + n <= |va| && ib + n <= |vb|
    requires forall i :: ia <= i < ia + n ==> va[i] == vb[i - ia + ib]
    ensures NeuronValue(a, va, ta, ops) == NeuronValue(b, vb, tb, ops)
  {
    SumFrame(ops, a.weight, ra, b.weight, rb, a.bias, va, ia, vb, ib, n);
  }

  /** One layer deeper, a hidden neuron keeps its layer. */
  lemma {:induction false} LayerOfDeeper(H: nat, L: nat, t: nat)
    requires t < H * L
    ensures LayerOf(H, L + 1, t) == LayerOf(H, L, t)
  {
    if t >= H {
      assert H * L == H * (L - 1) + H;
      LayerOfDeeper(H, L - 1, t - H);
    }
  }

  /** One layer deeper, a hidden neuron keeps its run, its fan-in and its input window. */
  lemma HiddenGeometryKept(I: nat, H: nat, L: nat, t: nat)
    requires t < H * L
    ensures RunStart(I, H, L + 1, t) == RunStart(I, H, L, t)
    ensures FanIn(I, H, L + 1, t) == FanIn(I, H, L, t)
    ensures InputBase(I, H, L + 1, t) == InputBase(I, H, L, t)
  {
    MigrationKeepsHiddenRuns(I, H, L, t);
    LayerOfDeeper(H, L, t);
    InputWindow(I, H, L, t);
    InputWindow(I, H, L + 1, t);
  }

  /** The run of an old hidden neuron lies before the new block, and its window before its own slot. */
  lemma HiddenRunFacts(I: nat, H: nat, O: nat, L: nat, t: nat)
    requires t < H * L
    ensures RunStart(I, H, L + 1, t) == RunStart(I, H, L, t)
    ensures FanIn(I, H, L + 1, t) == FanIn(I, H, L, t)
    ensures InputBase(I, H, L + 1, t) == InputBase(I, H, L, t)
    ensures RunStart(I, H, L, t) + FanIn(I, H, L, t) < RunStart(I, H, L, H * L)
    ensures InputBase(I, H, L, t) + FanIn(I, H, L, t) <= I + t
  {
    HiddenGeometryKept(I, H, L, t);
    RunStartMonotone(I, H, L, t, H * L);
    InputWindow(I, H, L, t);
  }

  /** The window an output neuron of a network with L hidden layers reads. */
  lemma OutputWindow(I: nat, H: nat, L: nat, t: nat)
    requires H * L <= t
    ensures InputBase(I, H, L, t) == if L == 0 then 0 else I + (L - 1) * H
  {
    LayerOfOutput(H, L, t);
    InputWindow(I, H, L, t);
  }

  /** An old hidden neuron of the grown network reads the same run, window, tag and bias as before. */
  lemma HiddenNeuronKept(net: Net, g: Net, vals: seq<real>, t: nat, ops: Ops)
    requires KeepsHidden(net, g) && t < net.nactivations - net.noutputs && |vals| == net.ninputs + t
    ensures NeuronValue(g, vals, t, ops) == NeuronValue(net, vals, t, ops)
  {
    var I, H, O, L := net.ninputs, net.nhiddens, net.noutputs, net.nhiddenLayers;
    HiddenRunFacts(I, H, O, L, t);
    var b, n, base := RunStart(I, H, L, t), FanIn(I, H, L, t), InputBase(I, H, L, t);
    HiddenWeightsKept(net, g, b, b + n);
    assert g.activation[t] == net.activation[t];
    NeuronValueFrame(g, vals, t, net, vals, t, ops, b, b, n, base, base);
  }

  /** Where the values of the old last hidden layer start in the output segment: at the inputs, without one. */
  function LastLayerBase(I: nat, H: nat, L: nat): nat
  {
    if L == 0 then 0 else I + (L - 1) * H
  }

  /** New neuron j of the grown layout: its run is row j of the new block, and it reads the old last layer. */
  lemma NewRunFacts(I: nat, H: nat, O: nat, L: nat, j: nat)
    requires (L > 0 || H == I) && j < H
    ensures RunStart(I, H, L + 1, H * L + j) == BlockSlot(RunStart(I, H, L, H * L), H, j, 0)
    ensures FanIn(I, H, L + 1, H * L + j) == H
    ensures InputBase(I, H, L + 1, H * L + j) == LastLayerBase(I, H, L)
    ensures LastLayerBase(I, H, L) + H <= I + H * L
  {
    NewBlockIsNewRuns(I, H, O, L, j, 0);
    NewLayerReadsLastHidden(I, H, L, j);
    if L > 0 {
      assert (L - 1) * H + H == H * L;
      assert H * (L - 1) == (L - 1) * H;
    }
  }

  /** Row j of the new block holds a single 1, at fan-in j, and zeros elsewhere. */
  lemma BypassRow(net: Net, g: Net, j: nat)
    requires AddsBypass(net, g) && j < net.nhiddens
    ensures var H := net.nhiddens;
            var b := BlockSlot(RunStart(net.ninputs, H, net.nhiddenLayers, net.nactivations - net.noutputs), H, j, 0);
            && b + H < |g.weight|
            && forall i :: b <= i <= b + H ==> g.weight[i] == if i == b + j + 1 then 1.0 else 0.0
  {
    var H := net.nhiddens;
    var p := RunStart(net.ninputs, H, net.nhiddenLayers, net.nactivations - net.noutputs);
    var b := BlockSlot(p, H, j, 0);
    assert BlockSlot(p, H, j, H) == b + H;
    forall i | b <= i <= b + H
      ensures g.weight[i] == if i == b + j + 1 then 1.0 else 0.0
    {
      assert i == BlockSlot(p, H, j, i - b);
    }
  }

  /**
   A passthrough neuron whose run is zero except a 1 at fan-in j outputs the
   j-th value of its window.
   */
  lemma BypassNeuron(net: Net, vals: seq<real>, t: nat, ops: Ops, j: nat)
    requires Valid(net) && t < net.nactivations && |vals| == net.ninputs + t && IdentityLaws(ops)
    requires var r, n := RunStart(net.ninputs, net.nhiddens, net.nhiddenLayers, t), FanIn(net.ninputs, net.nhiddens, net.nhiddenLayers, t);
             && j < n && net.activation[t] == Passthrough && r + n < |net.weight|
             && forall i :: r <= i <= r + n ==> net.weight[i] == if i == r + j + 1 then 1.0 else 0.0
    ensures var base := InputBase(net.ninputs, net.nhiddens, net.nhiddenLayers, t);
            && base + j < |vals|
            && NeuronValue(net, vals, t, ops) == vals[base + j]
  {
    var I, H, L := net.ninputs, net.nhiddens, net.nhiddenLayers;
    var r, n, base := RunStart(I, H, L, t), FanIn(I, H, L, t), InputBase(I, H, L, t);
    InputWindow(I, H, L, t);
    BypassSum(ops, net.weight, r, net.bias, vals, base, n, j);
    assert Activate(ops, Passthrough, vals[base + j]) == vals[base + j];
  }

  /** New neuron j of the grown network is a passthrough neuron with a bypass run reading the old last layer. */
  lemma NewFrame(net: Net, g: Net, j: nat)
    requires AddsBypass(net, g) && j < net.nhiddens
    ensures var t := net.nactivations - net.noutputs + j;
            var r, n := RunStart(g.ninputs, g.nhiddens, g.nhiddenLayers, t), FanIn(g.ninputs, g.nhiddens, g.nhiddenLayers, t);
            && t < g.nactivations && j < n && g.activation[t] == Passthrough && r + n < |g.weight|
            && (forall i :: r <= i <= r + n ==> g.weight[i] == if i == r + j + 1 then 1.0 else 0.0)
            && InputBase(g.ninputs, g.nhiddens, g.nhiddenLayers, t) == LastLayerBase(net.ninputs, net.nhiddens, net.nhiddenLayers)
  {
    var I, H, O, L := net.ninputs, net.nhiddens, net.noutputs, net.nhiddenLayers;
    NewRunFacts(I, H, O, L, j);
    BypassRow(net, g, j);
  }

  /** New neuron j outputs the j-th value of the old last hidden layer it reads. */
  lemma NewNeuronValue(net: Net, g: Net, vals: seq<real>, j: nat, ops: Ops)
    requires AddsBypass(net, g) && IdentityLaws(ops) && j < net.nhiddens
    requires |vals| == net.ninputs + (net.nactivations - net.noutputs) + j
    ensures LastLayerBase(net.ninputs, net.nhiddens, net.nhiddenLayers) + j < |vals|
    ensures NeuronValue(g, vals, net.nactivations - net.noutputs + j, ops)
            == vals[LastLayerBase(net.ninputs, net.nhiddens, net.nhiddenLayers) + j]
  {
    NewFrame(net, g, j);
    BypassNeuron(g, vals, net.nactivations - net.noutputs + j, ops, j);
  }

  /** An output run lies between the end of the hidden runs and the end of the weights. */
  lemma OutputRunBounds(I: nat, H: nat, O: nat, L: nat, t: nat)
    requires (L > 0 || H == I) && H * L <= t < H * L + O
    ensures RunStart(I, H, L, H * L) <= RunStart(I, H, L, t)
    ensures RunStart(I, H, L, t) + H < RunStart(I, H, L, H * L + O)
  {
    MigrationShiftsOutputRuns(I, H, L, t);
    assert FanIn(I, H, L, t) == H;
    RunStartMonotone(I, H, L, H * L, t);
    RunStartMonotone(I, H, L, t, H * L + O);
  }

  /** A run of H + 1 weights past the new block is the old run, moved by the block's size. */
  lemma ShiftedRun(gw: seq<real>, nw: seq<real>, p: nat, nnew: nat, rb: nat, ra: nat, H: nat)
    requires p <= rb && rb + H < |nw| && |gw| == |nw| + nnew && ra == rb + nnew
    requires forall i :: p + nnew <= i < |gw| ==> gw[i] == nw[i - nnew]
    ensures ra + H < |gw|
    ensures forall i :: ra <= i <= ra + H ==> gw[i] == nw[i - ra + rb]
  {
  }

  /**
   Old output neuron u and its moved copy u + H: same tag and bias, and the
   copy's run, (H + 1) * H slots further on, holds the old run's weights.
   */
  lemma OutputFrame(net: Net, g: Net, u: nat)
    requires ShiftsOutputs(net, g) && net.nactivations - net.noutputs <= u < net.nactivations
    ensures var H := net.nhiddens;
            var rb := RunStart(net.ninputs, H, net.nhiddenLayers, u);
            var ra := RunStart(net.ninputs, H, net.nhiddenLayers + 1, u + H);
            && u + H < g.nactivations
            && g.activation[u + H] == net.activation[u] && g.bias == net.bias
            && ra + H < |g.weight| && rb + H < |net.weight|
            && forall i :: ra <= i <= ra + H ==> g.weight[i] == net.weight[i - ra + rb]
  {
    OutputTag(net, g, u);
    OutputRun(net, g, u, RunStart(net.ninputs, net.nhiddens, net.nhiddenLayers, u),
              RunStart(net.ninputs, net.nhiddens, net.nhiddenLayers + 1, u + net.nhiddens));
  }

  /** The moved copy u + H of old output neuron u has its tag and bias. */
  lemma OutputTag(net: Net, g: Net, u: nat)
    requires ShiftsOutputs(net, g) && net.nactivations - net.noutputs <= u < net.nactivations
    ensures u + net.nhiddens < g.nactivations
    ensures g.activation[u + net.nhiddens] == net.activation[u] && g.bias == net.bias
  {
  }

  /** The run of the moved copy u + H holds the run of old output neuron u, (H + 1) * H slots further on. */
  lemma OutputRun(net: Net, g: Net, u: nat, rb: nat, ra: nat)
    requires ShiftsOutputs(net, g) && net.nactivations - net.noutputs <= u < net.nactivations
    requires rb == RunStart(net.ninputs, net.nhiddens, net.nhiddenLayers, u)
    requires ra == RunStart(net.ninputs, net.nhiddens, net.nhiddenLayers + 1, u + net.nhiddens)
    ensures ra + net.nhiddens < |g.weight| && rb + net.nhiddens < |net.weight|
    ensures forall i :: ra <= i <= ra + net.nhiddens ==> g.weight[i] == net.weight[i - ra + rb]
  {
    var I, H, L := net.ninputs, net.nhiddens, net.nhiddenLayers;
    OutputRunInWeights(net, u);
    MigrationShiftsOutputRuns(I, H, L, u);
    ShiftedRun(g.weight, net.weight, RunStart(I, H, L, net.nactivations - net.noutputs), (H + 1) * H, rb, ra, H);
  }

  /** An output run of a growable network lies between the end of the hidden runs and the end of the weights. */
  lemma OutputRunInWeights(net: Net, u: nat)
    requires Growable(net) && net.nactivations - net.noutputs <= u < net.nactivations
    ensures var I, H, L := net.ninputs, net.nhiddens, net.nhiddenLayers;
            && RunStart(I, H, L, net.nactivations - net.noutputs) <= RunStart(I, H, L, u)
            && RunStart(I, H, L, u) + H < |net.weight|
  {
    var I, H, O, L := net.ninputs, net.nhiddens, net.noutputs, net.nhiddenLayers;
    TotalActivationsIs(H, O, L);
    OutputRunBounds(I, H, O, L, u);
  }

  /** A neuron's value, with its run, window and fan-in given by name. */
  lemma NeuronSum(net: Net, vals: seq<real>, t: nat, ops: Ops, r: nat, base: nat, n: nat)
    requires Valid(net) && t < net.nactivations && |vals| == net.ninputs + t
    requires r == RunStart(net.ninputs, net.nhiddens, net.nhiddenLayers, t)
    requires base == InputBase(net.ninputs, net.nhiddens, net.nhiddenLayers, t)
    requires n == FanIn(net.ninputs, net.nhiddens, net.nhiddenLayers, t)
    ensures r + n < |net.weight| && base + n <= |vals|
    ensures NeuronValue(net, vals, t, ops) == ops.activate(net.activation[t], Sum(ops, net.weight, r, net.bias, vals, base, n))
  {
    RunStartMonotone(net.ninputs, net.nhiddens, net.nhiddenLayers, t, net.nactivations);
    ReadsEarlier(net.ninputs, net.nhiddens, net.nhiddenLayers, t);
  }

  /** An output neuron sums its run, of fan-in H, over the last hidden layer (over the inputs, without one). */
  lemma OutputNeuronSum(net: Net, vals: seq<real>, u: nat, ops: Ops)
    requires Valid(net) && (net.nhiddenLayers > 0 || net.nhiddens == net.ninputs)
    requires net.nactivations - net.noutputs <= u < net.nactivations && |vals| == net.ninputs + u
    ensures var I, H, L := net.ninputs, net.nhiddens, net.nhiddenLayers;
            var r, last := RunStart(I, H, L, u), LastLayerBase(I, H, L);
            && r + H < |net.weight| && last + H <= |vals|
            && NeuronValue(net, vals, u, ops) == ops.activate(net.activation[u], Sum(ops, net.weight, r, net.bias, vals, last, H))
  {
    var I, H, O, L := net.ninputs, net.nhiddens, net.noutputs, net.nhiddenLayers;
    TotalActivationsIs(H, O, L);
    OutputWindow(I, H, L, u);
    NeuronSum(net, vals, u, ops, RunStart(I, H, L, u), LastLayerBase(I, H, L), H);
  }

  /** One layer deeper, the last hidden layer is the one right after the old hidden neurons. */
  lemma DeeperLastLayer(I: nat, H: nat, L: nat, hl: nat)
    requires hl == H * L
    ensures LastLayerBase(I, H, L + 1) == I + hl
  {
  }

  /**
   Old output neuron u (over the values `fv`) and its moved copy u + H (over
   the values `gv`) have the same tag and the same weighted sum.
   */
  ghost predicate SameOutputSum(net: Net, g: Net, gv: seq<real>, fv: seq<real>, u: nat, ops: Ops)
  {
    var I, H, L := net.ninputs, net.nhiddens, net.nhiddenLayers;
    var ra, rb, last := RunStart(I, H, L + 1, u + H), RunStart(I, H, L, u), LastLayerBase(I, H, L);
    && net.noutputs <= net.nactivations && u + H < |g.activation| && u < |net.activation|
    && g.activation[u + H] == net.activation[u]
    && ra + H < |g.weight| && rb + H < |net.weight|
    && I + (net.nactivations - net.noutputs) + H <= |gv| && last + H <= |fv|
    && Sum(ops, g.weight, ra, g.bias, gv, I + (net.nactivations - net.noutputs), H)
       == Sum(ops, net.weight, rb, net.bias, fv, last, H)
  }

  /** The moved copy of an old output neuron sums like the original once the new layer holds the old last layer's values. */
  lemma MovedOutputSum(net: Net, g: Net, gv: seq<real>, fv: seq<real>, u: nat, ops: Ops)
    requires ShiftsOutputs(net, g) && net.nactivations - net.noutputs <= u < net.nactivations
    requires var I, H, hl := net.ninputs, net.nhiddens, net.nactivations - net.noutputs;
             && I + hl + H <= |gv| && LastLayerBase(I, H, net.nhiddenLayers) + H <= |fv|
             && forall i :: I + hl <= i < I + hl + H ==> gv[i] == fv[i - (I + hl) + LastLayerBase(I, H, net.nhiddenLayers)]
    ensures SameOutputSum(net, g, gv, fv, u, ops)
  {
    var I, H, L := net.ninputs, net.nhiddens, net.nhiddenLayers;
    var hl := net.nactivations - net.noutputs;
    OutputFrame(net, g, u);
    SumFrame(ops, g.weight, RunStart(I, H, L + 1, u + H), net.weight, RunStart(I, H, L, u), net.bias,
             gv, I + hl, fv, LastLayerBase(I, H, L), H);
  }

  /** An old output neuron and its moved copy output the same value when they sum alike. */
  lemma OutputNeuronValue(net: Net, g: Net, gv: seq<real>, fv: seq<real>, u: nat, ops: Ops)
    requires GrownHeader(net, g) && net.nactivations - net.noutputs <= u < net.nactivations
    requires SameOutputSum(net, g, gv, fv, u, ops)
    requires |gv| == net.ninputs + (u + net.nhiddens) && |fv| == net.ninputs + u
    ensures NeuronValue(g, gv, u + net.nhiddens, ops) == NeuronValue(net, fv, u, ops)
  {
    var I, H, L := net.ninputs, net.nhiddens, net.nhiddenLayers;
    DeeperLastLayer(I, H, L, net.nactivations - net.noutputs);
    OutputNeuronSum(g, gv, u + H, ops);
    OutputNeuronSum(net, fv, u, ops);
  }

  /*
   The comparison of the two forward passes runs over neuron functions (see
   `StepOf`): `fs` for the old network, `gs` for the grown one. With I
   inputs, `hl` old hidden neurons and H new ones reading the old last
   hidden layer at `last`, the three predicates below say what the grown
   network's neurons compute.
   */

  /** Every old hidden neuron computes in `gs` what it computed in `fs`, over any values before it. */
  ghost predicate HiddenAgree(gs: NeuronFn, fs: NeuronFn, I: nat, hl: nat)
  {
    forall vals: seq<real>, t: nat :: t < hl && |vals| == I + t ==> gs(vals, t) == fs(vals, t)
  }

  /** New neuron j (tag hl + j) outputs the j-th value of the old last hidden layer. */
  ghost predicate NewAgree(gs: NeuronFn, I: nat, H: nat, hl: nat, last: nat)
  {
    forall vals: seq<real>, t: nat :: hl <= t < hl + H && |vals| == I + t ==>
      last + (t - hl) < |vals| && gs(vals, t) == vals[last + (t - hl)]
  }

  /**
   A moved output neuron (tag u + H in `gs`, u < `na` in `fs`) computes what
   the old one did once the new layer holds the old last layer's values.
   */
  ghost predicate OutputAgree(gs: NeuronFn, fs: NeuronFn, I: nat, H: nat, hl: nat, last: nat, na: nat)
  {
    forall gv: seq<real>, fv: seq<real>, t: nat, u: nat ::
      OutputPair(I, H, hl, last, na, gv, fv, t, u) ==> gs(gv, t) == fs(fv, u)
  }

  /**
   Old output neuron u, before the values `fv`, and its moved copy t = u + H,
   before the values `gv`, whose new layer holds the old last layer's values.
   */
  ghost predicate OutputPair(I: nat, H: nat, hl: nat, last: nat, na: nat, gv: seq<real>, fv: seq<real>, t: nat, u: nat)
  {
    && last + H <= I + hl && hl <= u < na && t == u + H && |gv| == I + t && |fv| == I + u
    && gv[I + hl .. I + hl + H] == fv[last .. last + H]
  }

  /** All three agreements, for `na` old non-input neurons. */
  ghost predicate Comparable(gs: NeuronFn, fs: NeuronFn, I: nat, H: nat, hl: nat, last: nat, na: nat)
  {
    && hl <= na && last + H <= I + hl
    && HiddenAgree(gs, fs, I, hl) && NewAgree(gs, I, H, hl, last) && OutputAgree(gs, fs, I, H, hl, last, na)
  }

  lemma HiddenNeuronsAgree(net: Net, g: Net, ops: Ops)
    requires KeepsHidden(net, g)
    ensures HiddenAgree(StepOf(g, ops), StepOf(net, ops), net.ninputs, net.nactivations - net.noutputs)
  {
    forall vals: seq<real>, t: nat | t < net.nactivations - net.noutputs && |vals| == net.ninputs + t
      ensures StepOf(g, ops)(vals, t) == StepOf(net, ops)(vals, t)
    {
      HiddenNeuronKept(net, g, vals, t, ops);
    }
  }

  lemma NewNeuronsAgree(net: Net, g: Net, ops: Ops)
    requires AddsBypass(net, g) && IdentityLaws(ops)
    ensures NewAgree(StepOf(g, ops), net.ninputs, net.nhiddens, net.nactivations - net.noutputs,
                     LastLayerBase(net.ninputs, net.nhiddens, net.nhiddenLayers))
  {
    var hl, last := net.nactivations - net.noutputs, LastLayerBase(net.ninputs, net.nhiddens, net.nhiddenLayers);
    forall vals: seq<real>, t: nat | hl <= t < hl + net.nhiddens && |vals| == net.ninputs + t
      ensures last + (t - hl) < |vals| && StepOf(g, ops)(vals, t) == vals[last + (t - hl)]
    {
      NewNeuronValue(net, g, vals, t - hl, ops);
    }
  }

  /** Equal slices, slot by slot. */
  lemma SliceWindow(gv: seq<real>, fv: seq<real>, a: nat, b: nat, H: nat)
    requires a + H <= |gv| && b + H <= |fv| && gv[a .. a + H] == fv[b .. b + H]
    ensures forall i :: a <= i < a + H ==> gv[i] == fv[i - a + b]
  {
    forall i | a <= i < a + H
      ensures gv[i] == fv[i - a + b]
    {
      assert gv[a .. a + H][i - a] == fv[b .. b + H][i - a];
    }
  }

  /** One instance of `OutputAgree`. */
  lemma OutputNeuronAgrees(net: Net, g: Net, ops: Ops, gv: seq<real>, fv: seq<real>, t: nat, u: nat)
    requires ShiftsOutputs(net, g)
    requires OutputPair(net.ninputs, net.nhiddens, net.nactivations - net.noutputs,
                        LastLayerBase(net.ninputs, net.nhiddens, net.nhiddenLayers), net.nactivations, gv, fv, t, u)
    ensures StepOf(g, ops)(gv, t) == StepOf(net, ops)(fv, u)
  {
    MovedOutputValue(net, g, ops, gv, fv, t, u);
    StepIs(g, ops, gv, t);
    StepIs(net, ops, fv, u);
  }

  /** The moved copy t of old output neuron u outputs the old value once the new layer holds the old last layer. */
  lemma MovedOutputValue(net: Net, g: Net, ops: Ops, gv: seq<real>, fv: seq<real>, t: nat, u: nat)
    requires ShiftsOutputs(net, g)
    requires OutputPair(net.ninputs, net.nhiddens, net.nactivations - net.noutputs,
                        LastLayerBase(net.ninputs, net.nhiddens, net.nhiddenLayers), net.nactivations, gv, fv, t, u)
    ensures t < g.nactivations && |gv| == g.ninputs + t && u < net.nactivations && |fv| == net.ninputs + u
    ensures NeuronValue(g, gv, t, ops) == NeuronValue(net, fv, u, ops)
  {
    PairSums(net, g, ops, gv, fv, t, u);
    OutputNeuronValue(net, g, gv, fv, u, ops);
  }

  /** A moved output neuron and its original, over the values of an output pair, sum alike. */
  lemma PairSums(net: Net, g: Net, ops: Ops, gv: seq<real>, fv: seq<real>, t: nat, u: nat)
    requires ShiftsOutputs(net, g)
    requires OutputPair(net.ninputs, net.nhiddens, net.nactivations - net.noutputs,
                        LastLayerBase(net.ninputs, net.nhiddens, net.nhiddenLayers), net.nactivations, gv, fv, t, u)
    ensures net.nactivations - net.noutputs <= u < net.nactivations && t == u + net.nhiddens
    ensures |gv| == net.ninputs + (u + net.nhiddens) && |fv| == net.ninputs + u
    ensures SameOutputSum(net, g, gv, fv, u, ops)
  {
    var I, H, hl := net.ninputs, net.nhiddens, net.nactivations - net.noutputs;
    SliceWindow(gv, fv, I + hl, LastLayerBase(I, H, net.nhiddenLayers), H);
    MovedOutputSum(net, g, gv, fv, u, ops);
  }

  lemma OutputNeuronsAgree(net: Net, g: Net, ops: Ops)
    requires ShiftsOutputs(net, g)
    ensures OutputAgree(StepOf(g, ops), StepOf(net, ops), net.ninputs, net.nhiddens, net.nactivations - net.noutputs,
                        LastLayerBase(net.ninputs, net.nhiddens, net.nhiddenLayers), net.nactivations)
  {
    var I, H, hl := net.ninputs, net.nhiddens, net.nactivations - net.noutputs;
    var last := LastLayerBase(I, H, net.nhiddenLayers);
    forall gv: seq<real>, fv: seq<real>, t: nat, u: nat | OutputPair(I, H, hl, last, net.nactivations, gv, fv, t, u)
      ensures StepOf(g, ops)(gv, t) == StepOf(net, ops)(fv, u)
    {
      OutputNeuronAgrees(net, g, ops, gv, fv, t, u);
    }
  }

  /**
   Slot j of the grown trace `v` against the old trace `f`: the inputs and
   old hidden values in place, new neuron k holding the old last layer's
   value k, and the rest shifted by the H new slots.
   */
  ghost predicate Matches(I: nat, H: nat, hl: nat, last: nat, v: seq<real>, f: seq<real>, j: nat)
  {
    && j < |v|
    && if j < I + hl then j < |f| && v[j] == f[j]
       else if j < I + hl + H then last + (j - (I + hl)) < |f| && v[j] == f[last + (j - (I + hl))]
       else j - H < |f| && v[j] == f[j - H]
  }

  /** The context of one step of the trace comparison: slots before j match. */
  ghost predicate StepContext(gs: NeuronFn, fs: NeuronFn, inputs: seq<real>, H: nat, hl: nat, last: nat,
                              v: seq<real>, f: seq<real>, j: nat)
  {
    && |inputs| + hl <= |f| && |v| == |f| + H && last + H <= |inputs| + hl
    && IsTrace(gs, inputs, v) && IsTrace(fs, inputs, f)
    && j < |v|
    && forall k: nat :: k < j ==> Matches(|inputs|, H, hl, last, v, f, k)
  }

  lemma TraceInput(gs: NeuronFn, fs: NeuronFn, inputs: seq<real>, H: nat, hl: nat, last: nat, v: seq<real>, f: seq<real>, j: nat)
    requires StepContext(gs, fs, inputs, H, hl, last, v, f, j) && j < |inputs|
    ensures Matches(|inputs|, H, hl, last, v, f, j)
  {
    assert v[..|inputs|][j] == f[..|inputs|][j];
  }

  /** Slots before j agree when they all are input or old hidden slots. */
  lemma PrefixAgrees(gs: NeuronFn, fs: NeuronFn, inputs: seq<real>, H: nat, hl: nat, last: nat, v: seq<real>, f: seq<real>, j: nat)
    requires StepContext(gs, fs, inputs, H, hl, last, v, f, j) && j <= |inputs| + hl
    ensures v[..j] == f[..j]
  {
    forall k | 0 <= k < j
      ensures v[k] == f[k]
    {
      assert Matches(|inputs|, H, hl, last, v, f, k);
    }
  }

  lemma TraceHidden(gs: NeuronFn, fs: NeuronFn, inputs: seq<real>, H: nat, hl: nat, last: nat, v: seq<real>, f: seq<real>, j: nat)
    requires StepContext(gs, fs, inputs, H, hl, last, v, f, j) && HiddenAgree(gs, fs, |inputs|, hl)
    requires |inputs| <= j < |inputs| + hl
    ensures Matches(|inputs|, H, hl, last, v, f, j)
  {
    PrefixAgrees(gs, fs, inputs, H, hl, last, v, f, j);
    assert SlotHolds(gs, |inputs|, v, j) && SlotHolds(fs, |inputs|, f, j);
    assert gs(v[..j], j - |inputs|) == fs(v[..j], j - |inputs|);
  }

  lemma TraceNew(gs: NeuronFn, fs: NeuronFn, inputs: seq<real>, H: nat, hl: nat, last: nat, v: seq<real>, f: seq<real>, j: nat)
    requires StepContext(gs, fs, inputs, H, hl, last, v, f, j) && NewAgree(gs, |inputs|, H, hl, last)
    requires |inputs| + hl <= j < |inputs| + hl + H
    ensures Matches(|inputs|, H, hl, last, v, f, j)
  {
    var I := |inputs|;
    var s := last + (j - (I + hl));
    assert SlotHolds(gs, I, v, j);
    assert gs(v[..j], j - I) == v[..j][s];
    assert Matches(I, H, hl, last, v, f, s);
  }

  /** The new layer's slots of `v` hold the old last layer's values of `f`. */
  lemma NewWindow(I: nat, H: nat, hl: nat, last: nat, v: seq<real>, f: seq<real>, j: nat, u: nat)
    requires I + hl + H <= j <= |v| && u + H == j && u <= |f| && last + H <= u
    requires forall k: nat :: k < j ==> Matches(I, H, hl, last, v, f, k)
    ensures v[..j][I + hl .. I + hl + H] == f[..u][last .. last + H]
  {
    var gv, fv := v[..j], f[..u];
    forall i | I + hl <= i < I + hl + H
      ensures gv[i] == fv[last + (i - (I + hl))]
    {
      assert Matches(I, H, hl, last, v, f, i);
    }
    assert gv[I + hl .. I + hl + H] == fv[last .. last + H];
  }

  lemma TraceOutput(gs: NeuronFn, fs: NeuronFn, inputs: seq<real>, H: nat, hl: nat, last: nat, v: seq<real>, f: seq<real>, j: nat)
    requires StepContext(gs, fs, inputs, H, hl, last, v, f, j)
    requires OutputAgree(gs, fs, |inputs|, H, hl, last, |f| - |inputs|)
    requires |inputs| + hl + H <= j
    ensures Matches(|inputs|, H, hl, last, v, f, j)
  {
    var I, u := |inputs|, j - H;
    NewWindow(I, H, hl, last, v, f, j, u);
    assert OutputPair(I, H, hl, last, |f| - I, v[..j], f[..u], j - I, u - I);
    assert SlotHolds(gs, I, v, j) && SlotHolds(fs, I, f, u);
    assert fs(f[..u], u - I) == gs(v[..j], j - I);
  }

  /** The grown trace matches the old one slot by slot. */
  lemma {:induction false} TracesMatch(gs: NeuronFn, fs: NeuronFn, inputs: seq<real>, H: nat, hl: nat, last: nat,
                                       v: seq<real>, f: seq<real>, n: nat)
    requires |inputs| + hl <= |f| && |v| == |f| + H && last + H <= |inputs| + hl
    requires IsTrace(gs, inputs, v) && IsTrace(fs, inputs, f)
    requires HiddenAgree(gs, fs, |inputs|, hl) && NewAgree(gs, |inputs|, H, hl, last)
    requires OutputAgree(gs, fs, |inputs|, H, hl, last, |f| - |inputs|)
    requires n <= |v|
    ensures forall k: nat :: k < n ==> Matches(|inputs|, H, hl, last, v, f, k)
  {
    if n > 0 {
      var I, j := |inputs|, n - 1;
      TracesMatch(gs, fs, inputs, H, hl, last, v, f, j);
      if j < I {
        TraceInput(gs, fs, inputs, H, hl, last, v, f, j);
      } else if j < I + hl {
        TraceHidden(gs, fs, inputs, H, hl, last, v, f, j);
      } else if j < I + hl + H {
        TraceNew(gs, fs, inputs, H, hl, last, v, f, j);
      } else {
        TraceOutput(gs, fs, inputs, H, hl, last, v, f, j);
      }
    }
  }

  /**
   Two traces whose neuron functions agree as above: the grown one holds the
   old input and hidden values, then a copy of the old last hidden layer,
   then the old output values.
   */
  lemma TracesAgree(gs: NeuronFn, fs: NeuronFn, inputs: seq<real>, I: nat, H: nat, hl: nat, last: nat, na: nat,
                    v: seq<real>, f: seq<real>, k: nat, e: nat)
    requires |inputs| == I && |f| == I + na && |v| == |f| + H && k == I + hl && e == k + H
    requires IsTrace(gs, inputs, v) && IsTrace(fs, inputs, f)
    ensures Comparable(gs, fs, I, H, hl, last, na) ==>
            && e <= |v| && last + H <= k <= |f|
            && v[..k] == f[..k]
            && v[k .. e] == f[last .. last + H]
            && v[e..] == f[k..]
  {
    if Comparable(gs, fs, I, H, hl, last, na) {
      TracesMatch(gs, fs, inputs, H, hl, last, v, f, |v|);
      MatchedPrefix(I, H, hl, last, v, f, k);
      MatchedCopy(I, H, hl, last, v, f, k, e);
      MatchedTail(I, H, hl, last, v, f, k, e);
    }
  }

  /** Slot-wise matching traces share the input and old hidden prefix. */
  lemma MatchedPrefix(I: nat, H: nat, hl: nat, last: nat, v: seq<real>, f: seq<real>, k: nat)
    requires k == I + hl <= |f| && |v| == |f| + H
    requires forall j: nat :: j < |v| ==> Matches(I, H, hl, last, v, f, j)
    ensures v[..k] == f[..k]
  {
    forall i | 0 <= i < k
      ensures v[i] == f[i]
    {
      assert Matches(I, H, hl, last, v, f, i);
    }
  }

  /** In slot-wise matching traces the new layer copies the old last hidden layer. */
  lemma MatchedCopy(I: nat, H: nat, hl: nat, last: nat, v: seq<real>, f: seq<real>, k: nat, e: nat)
    requires k == I + hl <= |f| && |v| == |f| + H && e == k + H && last + H <= k
    requires forall j: nat :: j < |v| ==> Matches(I, H, hl, last, v, f, j)
    ensures v[k .. e] == f[last .. last + H]
  {
    forall i | k <= i < e
      ensures v[i] == f[last + (i - k)]
    {
      assert Matches(I, H, hl, last, v, f, i);
    }
  }

  /** Slot-wise matching traces end with the same values, shifted by the new layer. */
  lemma MatchedTail(I: nat, H: nat, hl: nat, last: nat, v: seq<real>, f: seq<real>, k: nat, e: nat)
    requires k == I + hl <= |f| && |v| == |f| + H && e == k + H
    requires forall j: nat :: j < |v| ==> Matches(I, H, hl, last, v, f, j)
    ensures v[e..] == f[k..]
  {
    forall i | e <= i < |v|
      ensures v[i] == f[i - H]
    {
      assert Matches(I, H, hl, last, v, f, i);
    }
  }

  /**
   The header relations of a network and its unit-bypass growth, and the
   agreement of their neuron functions the trace comparison needs.
   */
  ghost predicate GrownPair(net: Net, g: Net, gs: NeuronFn, fs: NeuronFn)
  {
    && Valid(net) && Valid(g) && g.ninputs == net.ninputs && g.nactivations == net.nactivations + net.nhiddens
    && net.noutputs <= net.nactivations
    && net.nneurons - net.noutputs == net.ninputs + (net.nactivations - net.noutputs)
    && g.nneurons - g.noutputs == net.nneurons - net.noutputs + net.nhiddens
    && Comparable(gs, fs, net.ninputs, net.nhiddens, net.nactivations - net.noutputs,
                  LastLayerBase(net.ninputs, net.nhiddens, net.nhiddenLayers), net.nactivations)
  }

  lemma GrownNeuronFns(net: Net, g: Net, ops: Ops)
    requires BypassGrown(net, g) && IdentityLaws(ops)
    ensures GrownPair(net, g, StepOf(g, ops), StepOf(net, ops))
  {
    BypassGrownShape(net, g);
    HiddenNeuronsAgree(net, g, ops);
    NewNeuronsAgree(net, g, ops);
    OutputNeuronsAgree(net, g, ops);
  }

  /** `v` and `f` are complete traces of a grown pair over the same inputs. */
  ghost predicate GrownTraces(net: Net, g: Net, gs: NeuronFn, fs: NeuronFn, inputs: seq<real>, v: seq<real>, f: seq<real>)
  {
    && GrownPair(net, g, gs, fs) && |inputs| == net.ninputs
    && IsTrace(gs, inputs, v) && |v| == g.ninputs + g.nactivations
    && IsTrace(fs, inputs, f) && |f| == net.ninputs + net.nactivations
  }

  /** Traces of a grown pair compare as `TracesAgree` says, stated in the networks' own counts. */
  lemma GrownTracesAgree(net: Net, g: Net, gs: NeuronFn, fs: NeuronFn, inputs: seq<real>, v: seq<real>, f: seq<real>)
    ensures GrownTraces(net, g, gs, fs, inputs, v, f) ==>
            && g.nneurons - g.noutputs <= |v|
            && LastLayerBase(net.ninputs, net.nhiddens, net.nhiddenLayers) + net.nhiddens <= net.nneurons - net.noutputs <= |f|
            && v[..net.nneurons - net.noutputs] == f[..net.nneurons - net.noutputs]
            && v[net.nneurons - net.noutputs .. g.nneurons - g.noutputs]
               == f[LastLayerBase(net.ninputs, net.nhiddens, net.nhiddenLayers) .. LastLayerBase(net.ninputs, net.nhiddens, net.nhiddenLayers) + net.nhiddens]
            && v[g.nneurons - g.noutputs..] == f[net.nneurons - net.noutputs..]
  {
    if GrownTraces(net, g, gs, fs, inputs, v, f) {
      TracesAgree(gs, fs, inputs, net.ninputs, net.nhiddens, net.nactivations - net.noutputs,
        LastLayerBase(net.ninputs, net.nhiddens, net.nhiddenLayers), net.nactivations, v, f,
        net.nneurons - net.noutputs, g.nneurons - g.noutputs);
    }
  }

  /**
   Growth with a unit bypass preserves behaviour: for every input vector the
   grown network writes the old network's input and hidden values first,
   then a copy of the old last hidden layer, and ends with the old network's
   output values.
   */
  lemma GrowthPreservesOutputs(net: Net, g: Net, inputs: seq<real>, ops: Ops)
    requires BypassGrown(net, g) && |inputs| == net.ninputs && IdentityLaws(ops)
    ensures g.nneurons - g.noutputs <= |Forward(g, inputs, ops, g.nactivations)|
    ensures LastLayerBase(net.ninputs, net.nhiddens, net.nhiddenLayers) + net.nhiddens
            <= net.nneurons - net.noutputs <= |Forward(net, inputs, ops, net.nactivations)|
    ensures Forward(g, inputs, ops, g.nactivations)[..net.nneurons - net.noutputs]
            == Forward(net, inputs, ops, net.nactivations)[..net.nneurons - net.noutputs]
    ensures Forward(g, inputs, ops, g.nactivations)[net.nneurons - net.noutputs .. g.nneurons - g.noutputs]
            == Forward(net, inputs, ops, net.nactivations)[LastLayerBase(net.ninputs, net.nhiddens, net.nhiddenLayers) ..
                                                          LastLayerBase(net.ninputs, net.nhiddens, net.nhiddenLayers) + net.nhiddens]
    ensures Forward(g, inputs, ops, g.nactivations)[g.nneurons - g.noutputs..]
            == Forward(net, inputs, ops, net.nactivations)[net.nneurons - net.noutputs..]
  {
    GrownNeuronFns(net, g, ops);
    ForwardIsTrace(net, inputs, ops, net.nactivations);
    ForwardIsTrace(g, inputs, ops, g.nactivations);
    GrownTracesAgree(net, g, StepOf(g, ops), StepOf(net, ops), inputs,
                     Forward(g, inputs, ops, g.nactivations), Forward(net, inputs, ops, net.nactivations));
  }
}
