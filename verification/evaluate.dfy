/**
 The forward pass. `Forward` is a neuron-by-neuron reference definition built
 from the layout geometry; `Run` is the single linear walk over the weight
 segment with a weight cursor, an output cursor and an input window, and is
 proved to compute exactly the reference.

 Floating-point arithmetic is not interpreted: the multiply, the add and the
 per-tag nonlinearity are parameters (`Ops`) applied in exactly the source's
 order, and each lemma states the few algebraic laws it needs of them.
 */
module Evaluate {
  import opened Layout
  import opened Network

  /** The float operations of one evaluation: multiply, add and the activation selected by a tag. */
  datatype Ops = Ops(mul: (real, real) -> real, add: (real, real) -> real, activate: (Activation, real) -> real)

  /**
   The pre-activation sum of one neuron: its bias weight at `b` times the
   shared bias, then the next `n` weights times `n` consecutive values starting
   at `base`, added in order.
   */
  function Sum(ops: Ops, ws: seq<real>, b: nat, bias: real, vals: seq<real>, base: nat, n: nat): real
    requires b + n < |ws| && base + n <= |vals|
  {
    if n == 0 then ops.mul(ws[b], bias)
    else ops.add(Sum(ops, ws, b, bias, vals, base, n - 1), ops.mul(ws[b + n], vals[base + n - 1]))
  }

  /** The value of non-input neuron `t` computed from the values written before it. */
  function NeuronValue(net: Net, vals: seq<real>, t: nat, ops: Ops): real
    requires Valid(net) && t < net.nactivations && |vals| == net.ninputs + t
  {
    var I, H, O, L := net.ninputs, net.nhiddens, net.noutputs, net.nhiddenLayers;
    RunStartMonotone(I, H, L, t, net.nactivations);
    ReadsEarlier(I, H, L, t);
    ops.activate(net.activation[t],
        Sum(ops, net.weight, RunStart(I, H, L, t), net.bias, vals, InputBase(I, H, L, t), FanIn(I, H, L, t)))
  }

  /**
   Reference semantics of the forward pass: the output segment after the
   inputs and the first `count` non-input neurons have been written.
   */
  function Forward(net: Net, inputs: seq<real>, ops: Ops, count: nat): (vals: seq<real>)
    requires Valid(net) && |inputs| == net.ninputs && count <= net.nactivations
    ensures |vals| == net.ninputs + count
  {
    if count == 0 then inputs
    else
      var prev := Forward(net, inputs, ops, count - 1);
      prev + [NeuronValue(net, prev, count - 1, ops)]
  }

  /**
   One step of the walk: reads neuron `t`'s bias weight at cursor `w`, then
   its `nw` fan-in weights against the `nw` values starting at `inp`, and
   returns the neuron's value with the cursor moved past its run.
   */
  method EvalNeuron(net: Net, out: seq<real>, t: nat, w: nat, inp: nat, nw: nat, ops: Ops)
    returns (value: real, next: nat)
    requires Valid(net) && t < net.nactivations && |out| == net.ninputs + t
    requires w == RunStart(net.ninputs, net.nhiddens, net.nhiddenLayers, t)
    requires inp == InputBase(net.ninputs, net.nhiddens, net.nhiddenLayers, t)
    requires nw == FanIn(net.ninputs, net.nhiddens, net.nhiddenLayers, t)
    ensures value == NeuronValue(net, out, t, ops)
    ensures next == RunStart(net.ninputs, net.nhiddens, net.nhiddenLayers, t + 1)
  {
    var I, H, O, L := net.ninputs, net.nhiddens, net.noutputs, net.nhiddenLayers;
    RunStartMonotone(I, H, L, t, net.nactivations);
    InputWindow(I, H, L, t);
    next := w;
    var sum := ops.mul(net.weight[next], net.bias);
    next := next + 1;
    var k: nat := 0;
    while k < nw
      invariant k <= nw
      invariant next == w + 1 + k
      invariant sum == Sum(ops, net.weight, w, net.bias, out, inp, k)
    {
      sum := ops.add(sum, ops.mul(net.weight[next], out[inp + k]));
      next := next + 1;
      k := k + 1;
    }
    value := ops.activate(net.activation[t], sum);
  }

  /** Width of layer `layer`: H for a hidden layer, O for the output layer. */
  function LayerWidth(net: Net, layer: nat): nat
  {
    if layer < net.nhiddenLayers then net.nhiddens else net.noutputs
  }

  /** The values every neuron of layer `layer` reads start here in the output segment. */
  function LayerInput(net: Net, layer: nat): nat
  {
    if layer == 0 then 0 else net.ninputs + (layer - 1) * net.nhiddens
  }

  /** Every neuron of layer `layer`, which starts at `t0`, has the layer's input window and fan-in. */
  lemma BlockGeometry(net: Net, layer: nat, t0: nat, t: nat)
    requires Valid(net) && layer <= net.nhiddenLayers && t0 == layer * net.nhiddens
    requires t0 <= t < t0 + LayerWidth(net, layer)
    ensures var I, H, L := net.ninputs, net.nhiddens, net.nhiddenLayers;
            && InputBase(I, H, L, t) == LayerInput(net, layer)
            && FanIn(I, H, L, t) == (if layer == 0 then I else H)
  {
    var I, H, L := net.ninputs, net.nhiddens, net.nhiddenLayers;
    if layer < L {
      LayerOfNeuron(H, L, layer, t);
    } else {
      LayerOfOutput(H, L, t);
    }
    InputWindow(I, H, L, t);
  }

  /** The layers tile the non-input neurons: layer `layer`, starting at `t0`, ends where the next begins. */
  lemma LayerEnd(net: Net, layer: nat, t0: nat)
    requires Valid(net) && layer <= net.nhiddenLayers && t0 == layer * net.nhiddens
    ensures t0 + LayerWidth(net, layer) <= net.nactivations
    ensures layer < net.nhiddenLayers ==> t0 + LayerWidth(net, layer) == (layer + 1) * net.nhiddens
    ensures layer == net.nhiddenLayers ==> t0 + LayerWidth(net, layer) == net.nactivations
  {
    TotalActivationsIs(net.nhiddens, net.noutputs, net.nhiddenLayers);
    if layer < net.nhiddenLayers {
      MulMonotone(layer + 1, net.nhiddenLayers, net.nhiddens);
    }
  }

  /** The neurons `lo` .. `hi` - 1 all read `nw` values starting at `inp`. */
  predicate UniformBlock(net: Net, lo: nat, hi: nat, inp: nat, nw: nat)
  {
    forall t :: lo <= t < hi ==>
      InputBase(net.ninputs, net.nhiddens, net.nhiddenLayers, t) == inp
      && FanIn(net.ninputs, net.nhiddens, net.nhiddenLayers, t) == nw
  }

  /** Each layer is a uniform block: one input window and one fan-in for all its neurons. */
  lemma LayerIsUniform(net: Net, layer: nat, lo: nat, hi: nat)
    requires Valid(net) && layer <= net.nhiddenLayers && lo == layer * net.nhiddens
    requires hi == lo + LayerWidth(net, layer)
    ensures UniformBlock(net, lo, hi, LayerInput(net, layer), if layer == 0 then net.ninputs else net.nhiddens)
  {
    forall t | lo <= t < hi
      ensures InputBase(net.ninputs, net.nhiddens, net.nhiddenLayers, t) == LayerInput(net, layer)
      ensures FanIn(net.ninputs, net.nhiddens, net.nhiddenLayers, t)
              == (if layer == 0 then net.ninputs else net.nhiddens)
    {
      BlockGeometry(net, layer, lo, t);
    }
  }

  /**
   The walk over the neurons `t` .. `hi` - 1 of a uniform block: each neuron
   in turn reads its run, writes one value and advances the cursor.
   */
  method EvalBlock(net: Net, inputs: seq<real>, ops: Ops, lo: nat, hi: nat, inp: nat, nw: nat,
                   t: nat, out0: seq<real>, w0: nat) returns (out: seq<real>, w: nat)
    requires Valid(net) && |inputs| == net.ninputs
    requires lo <= t <= hi <= net.nactivations && UniformBlock(net, lo, hi, inp, nw)
    requires out0 == Forward(net, inputs, ops, t)
    requires w0 == RunStart(net.ninputs, net.nhiddens, net.nhiddenLayers, t)
    ensures |out| == net.ninputs + hi
    ensures out == Forward(net, inputs, ops, hi)
    ensures w == RunStart(net.ninputs, net.nhiddens, net.nhiddenLayers, hi)
    decreases hi - t
  {
    if t == hi {
      out, w := out0, w0;
    } else {
      var out1, w1, next := AppendNeuron(net, inputs, ops, lo, hi, inp, nw, t, out0, w0);
      out, w := EvalBlock(net, inputs, ops, lo, hi, inp, nw, next, out1, w1);
    }
  }

  /** Evaluates neuron `t` of a uniform block and appends its value: the reference gains exactly neuron `t`. */
  method AppendNeuron(net: Net, inputs: seq<real>, ops: Ops, lo: nat, hi: nat, inp: nat, nw: nat,
                      t: nat, out0: seq<real>, w0: nat)
    returns (out: seq<real>, w: nat, next: nat)
    requires Valid(net) && |inputs| == net.ninputs
    requires lo <= t < hi <= net.nactivations && UniformBlock(net, lo, hi, inp, nw)
    requires out0 == Forward(net, inputs, ops, t)
    requires w0 == RunStart(net.ninputs, net.nhiddens, net.nhiddenLayers, t)
    ensures next == t + 1
    ensures out == Forward(net, inputs, ops, next)
    ensures w == RunStart(net.ninputs, net.nhiddens, net.nhiddenLayers, next)
  {
    next := t + 1;
    var value;
    value, w := EvalNeuron(net, out0, t, w0, inp, nw, ops);
    ForwardStep(net, inputs, ops, t);
    out := out0 + [value];
  }

  /**
   The walk over hidden layer `i`, whose first neuron is `t0`, reading the
   `nw` values at the input cursor `inp`; `t1` is the first neuron of the next
   layer.
   */
  method EvalHiddenLayer(net: Net, inputs: seq<real>, ops: Ops, i: nat, t0: nat, inp: nat, nw: nat,
                         out0: seq<real>, w0: nat)
    returns (out: seq<real>, w: nat, t1: nat)
    requires Valid(net) && |inputs| == net.ninputs && i < net.nhiddenLayers && t0 == i * net.nhiddens
    requires t0 <= net.nactivations
    requires inp == LayerInput(net, i) && nw == (if i == 0 then net.ninputs else net.nhiddens)
    requires out0 == Forward(net, inputs, ops, t0)
    requires w0 == RunStart(net.ninputs, net.nhiddens, net.nhiddenLayers, t0)
    ensures t1 == t0 + net.nhiddens && |out| == net.ninputs + t1
    ensures t1 == (i + 1) * net.nhiddens && t1 <= net.nactivations
    ensures out == Forward(net, inputs, ops, t1)
    ensures w == RunStart(net.ninputs, net.nhiddens, net.nhiddenLayers, t1)
  {
    t1 := t0 + net.nhiddens;
    LayerEnd(net, i, t0);
    LayerIsUniform(net, i, t0, t1);
    out, w := EvalBlock(net, inputs, ops, t0, t1, inp, nw, t0, out0, w0);
  }

  /**
   The walk over the output layer, which starts right after the H*L hidden
   neurons and reads the values at the input cursor `inp`: H of them, or the
   I inputs when there is no hidden layer.
   */
  method EvalOutputLayer(net: Net, inputs: seq<real>, ops: Ops, t0: nat, inp: nat, out0: seq<real>, w0: nat)
    returns (out: seq<real>, w: nat)
    requires Valid(net) && |inputs| == net.ninputs && t0 == net.nhiddenLayers * net.nhiddens
    requires t0 <= net.nactivations
    requires inp == LayerInput(net, net.nhiddenLayers)
    requires out0 == Forward(net, inputs, ops, t0)
    requires w0 == RunStart(net.ninputs, net.nhiddens, net.nhiddenLayers, t0)
    ensures out == Forward(net, inputs, ops, net.nactivations)
    ensures w == net.nweights
  {
    var L := net.nhiddenLayers;
    var nw := net.nhiddens;
    if L == 0 {
      nw := net.ninputs;
    }
    LayerEnd(net, L, t0);
    LayerIsUniform(net, L, t0, net.nactivations);
    out, w := EvalBlock(net, inputs, ops, t0, net.nactivations, inp, nw, t0, out0, w0);
  }

  /**
   The walk over all hidden layers, from the inputs alone to the first output
   neuron. The input cursor starts at the inputs and advances past the values
   each layer read, so it always points at the previous layer's values.
   */
  method EvalHiddenLayers(net: Net, inputs: seq<real>, ops: Ops) returns (out: seq<real>, w: nat, t0: nat, inp: nat)
    requires Valid(net) && |inputs| == net.ninputs
    ensures t0 == net.nhiddenLayers * net.nhiddens && t0 <= net.nactivations
    ensures inp == LayerInput(net, net.nhiddenLayers)
    ensures out == Forward(net, inputs, ops, t0)
    ensures w == RunStart(net.ninputs, net.nhiddens, net.nhiddenLayers, t0)
  {
    out, w, t0, inp := inputs, 0, 0, 0;
    var i: nat := 0;
    while i < net.nhiddenLayers
      invariant i <= net.nhiddenLayers
      invariant t0 == i * net.nhiddens && t0 <= net.nactivations
      invariant inp == LayerInput(net, i)
      invariant out == Forward(net, inputs, ops, t0)
      invariant w == RunStart(net.ninputs, net.nhiddens, net.nhiddenLayers, t0)
    {
      var nw := net.nhiddens;
      if i == 0 {
        nw := net.ninputs;
      }
      out, w, t0 := EvalHiddenLayer(net, inputs, ops, i, t0, inp, nw, out, w);
      NextLayerInput(net, i);
      inp := inp + nw;
      i := i + 1;
    }
  }

  /** Advancing the input cursor past the values layer `i` read lands on the values layer `i` wrote. */
  lemma NextLayerInput(net: Net, i: nat)
    ensures LayerInput(net, i + 1) == LayerInput(net, i) + (if i == 0 then net.ninputs else net.nhiddens)
  {
    if i > 0 {
      assert (i - 1) * net.nhiddens + net.nhiddens == i * net.nhiddens;
    }
  }

  /**
   The forward pass as the source walks it. Returns the network with its
   output segment overwritten, the index where the returned view of the O
   output values starts, and the final weight cursor. The walk consumes
   exactly the whole weight segment, writes every neuron slot, and the values
   it writes are those of the reference definition.
   */
  method Run(net: Net, inputs: seq<real>, ops: Ops) returns (r: Net, ret: nat, consumed: nat)
    requires Valid(net) && |inputs| == net.ninputs
    ensures r == net.(output := Forward(net, inputs, ops, net.nactivations))
    ensures Valid(r) && |r.output| == net.nneurons
    ensures consumed == net.nweights
    ensures ret == net.nneurons - net.noutputs
    ensures r.output[..net.ninputs] == inputs
  {
    var out, w, t0, inp := EvalHiddenLayers(net, inputs, ops);
    TotalActivationsIs(net.nhiddens, net.noutputs, net.nhiddenLayers);
    ret := |out|;
    out, w := EvalOutputLayer(net, inputs, ops, t0, inp, out, w);
    ForwardKeepsInputs(net, inputs, ops, net.nactivations);
    consumed := w;
    r := net.(output := out);
  }

  /** One more neuron appends its value, computed from the values before it. */
  lemma ForwardStep(net: Net, inputs: seq<real>, ops: Ops, t: nat)
    requires Valid(net) && |inputs| == net.ninputs && t < net.nactivations
    ensures Forward(net, inputs, ops, t + 1)
            == Forward(net, inputs, ops, t) + [NeuronValue(net, Forward(net, inputs, ops, t), t, ops)]
  {
  }

  /** Writing more neurons never changes the values already written. */
  lemma {:induction false} ForwardPrefix(net: Net, inputs: seq<real>, ops: Ops, m: nat, n: nat)
    requires Valid(net) && |inputs| == net.ninputs && m <= n <= net.nactivations
    ensures Forward(net, inputs, ops, n)[..net.ninputs + m] == Forward(net, inputs, ops, m)
  {
    if m < n {
      ForwardPrefix(net, inputs, ops, m, n - 1);
      var prev := Forward(net, inputs, ops, n - 1);
      assert Forward(net, inputs, ops, n)[..net.ninputs + m] == prev[..net.ninputs + m];
    }
  }

  /** The value of a non-input neuron as a function of its tag and the values written before it. */
  type NeuronFn = (seq<real>, nat) -> real

  /** `NeuronValue` as a total neuron function: zero where the network does not define it. */
  function StepOf(net: Net, ops: Ops): NeuronFn
  {
    (vals: seq<real>, t: nat) =>
      if Valid(net) && t < net.nactivations && |vals| == net.ninputs + t then NeuronValue(net, vals, t, ops) else 0.0
  }

  /** Where the network defines it, the neuron function is the neuron's value. */
  lemma StepIs(net: Net, ops: Ops, vals: seq<real>, t: nat)
    requires Valid(net) && t < net.nactivations && |vals| == net.ninputs + t
    ensures StepOf(net, ops)(vals, t) == NeuronValue(net, vals, t, ops)
  {
  }

  /**
   `vals` is a trace of a forward pass: it starts with the inputs, and every
   later slot holds its neuron's value over the slots before it.
   */
  ghost predicate IsTrace(step: NeuronFn, inputs: seq<real>, vals: seq<real>)
  {
    && |inputs| <= |vals| && vals[..|inputs|] == inputs
    && forall i :: |inputs| <= i < |vals| ==> SlotHolds(step, |inputs|, vals, i)
  }

  /** Slot i of `vals`, past the I inputs, holds its neuron's value over the slots before it. */
  ghost predicate SlotHolds(step: NeuronFn, I: nat, vals: seq<real>, i: nat)
    requires I <= i < |vals|
  {
    vals[i] == step(vals[..i], i - I)
  }

  /** Every prefix of the forward pass is a trace of the network's neuron function. */
  lemma {:induction false} ForwardIsTrace(net: Net, inputs: seq<real>, ops: Ops, n: nat)
    requires Valid(net) && |inputs| == net.ninputs && n <= net.nactivations
    ensures IsTrace(StepOf(net, ops), inputs, Forward(net, inputs, ops, n))
  {
    if n > 0 {
      ForwardIsTrace(net, inputs, ops, n - 1);
      var v, prev := Forward(net, inputs, ops, n), Forward(net, inputs, ops, n - 1);
      forall i | net.ninputs <= i < |v|
        ensures SlotHolds(StepOf(net, ops), net.ninputs, v, i)
      {
        if i < |prev| {
          assert SlotHolds(StepOf(net, ops), net.ninputs, prev, i);
        }
        if i < |prev| {
          assert v[..i] == prev[..i];
        } else {
          assert v[..i] == prev;
        }
      }
      assert v[..net.ninputs] == prev[..net.ninputs];
    }
  }

  /** The inputs are copied to the front of the output segment. */
  lemma ForwardKeepsInputs(net: Net, inputs: seq<real>, ops: Ops, n: nat)
    requires Valid(net) && |inputs| == net.ninputs && n <= net.nactivations
    ensures Forward(net, inputs, ops, n)[..net.ninputs] == inputs
  {
    ForwardPrefix(net, inputs, ops, 0, n);
  }

  /**
   The laws a zero weight needs: it annihilates any value it multiplies, and
   zero plus zero is zero. IEEE floats meet them for finite values only
   (0 times an infinity or a NaN is a NaN).
   */
  ghost predicate ZeroAnnihilates(ops: Ops)
  {
    (forall x :: Mul(ops, 0.0, x) == 0.0) && ops.add(0.0, 0.0) == 0.0
  }

  /** The multiply of `ops`, as a function term the laws above can be stated about. */
  function Mul(ops: Ops, a: real, b: real): real
  {
    ops.mul(a, b)
  }

  /** The add of `ops`, as a function term laws can be stated about. */
  function Add(ops: Ops, a: real, b: real): real
  {
    ops.add(a, b)
  }

  /** The activation of `ops`, as a function term laws can be stated about. */
  function Activate(ops: Ops, tag: Activation, x: real): real
  {
    ops.activate(tag, x)
  }

  /** A sum over zero weights is zero, whatever the bias and the values. */
  lemma {:induction false} SumOfZeroWeights(ops: Ops, ws: seq<real>, b: nat, bias: real, vals: seq<real>, base: nat, n: nat)
    requires b + n < |ws| && base + n <= |vals|
    requires AllZero(ws) && ZeroAnnihilates(ops)
    ensures Sum(ops, ws, b, bias, vals, base, n) == 0.0
  {
    if n == 0 {
      assert ws[b] == 0.0;
      assert Mul(ops, 0.0, bias) == 0.0;
    } else {
      SumOfZeroWeights(ops, ws, b, bias, vals, base, n - 1);
      assert ws[b + n] == 0.0;
      assert Mul(ops, 0.0, vals[base + n - 1]) == 0.0;
    }
  }

  /** A neuron whose run is all zero outputs its activation of 0. */
  lemma ZeroRunValue(net: Net, vals: seq<real>, t: nat, ops: Ops)
    requires Valid(net) && t < net.nactivations && |vals| == net.ninputs + t
    requires AllZero(net.weight) && ZeroAnnihilates(ops)
    ensures NeuronValue(net, vals, t, ops) == ops.activate(net.activation[t], 0.0)
  {
    var I, H, O, L := net.ninputs, net.nhiddens, net.noutputs, net.nhiddenLayers;
    RunStartMonotone(I, H, L, t, net.nactivations);
    InputWindow(I, H, L, t);
    SumOfZeroWeights(ops, net.weight, RunStart(I, H, L, t), net.bias, vals, InputBase(I, H, L, t), FanIn(I, H, L, t));
  }

  /**
   On a network whose weights are all zero, every non-input neuron outputs its
   activation of 0, for any input vector and any bias.
   */
  lemma ZeroWeightsGiveActivationOfZero(net: Net, inputs: seq<real>, ops: Ops)
    requires Valid(net) && |inputs| == net.ninputs && AllZero(net.weight) && ZeroAnnihilates(ops)
    ensures var vals := Forward(net, inputs, ops, net.nactivations);
            forall t :: 0 <= t < net.nactivations ==> vals[net.ninputs + t] == ops.activate(net.activation[t], 0.0)
  {
    var vals := Forward(net, inputs, ops, net.nactivations);
    forall t | 0 <= t < net.nactivations
      ensures vals[net.ninputs + t] == ops.activate(net.activation[t], 0.0)
    {
      ForwardPrefix(net, inputs, ops, t + 1, net.nactivations);
      var prev := Forward(net, inputs, ops, t);
      ZeroRunValue(net, prev, t, ops);
      assert vals[net.ninputs + t] == Forward(net, inputs, ops, t + 1)[net.ninputs + t];
    }
  }
}
