/**
 Neuron addressing and the connectivity probe. Both take a neuron id in the
 output-segment numbering (inputs first, then the non-input neurons in tag
 order, so neuron `id` has tag `id - I`).

 The addressing in the source decides "first hidden layer or not" by the
 test `id - I < H` alone. Without a hidden layer every non-input neuron is an
 output reading the inputs, so the test then sends the outputs past the
 first H to the wrong offset and fan-in unless H = I. The `AsWritten`
 members reproduce that computation; `WeightToNeuron` and `IsConnected` are
 the definitions that follow the layout for every L, and `AddressingAgrees`
 states exactly when the two coincide.
 */
module Introspect {
  import opened Layout
  import opened Network

  /**
   The offset the source returns for non-input neuron `id`, under the
   first-hidden-layer test. It is one past the neuron's bias slot whenever a
   hidden layer exists, H = I, or the neuron is among the first H.
   */
  function WeightToNeuronAsWritten(net: Net, id: nat): (r: nat)
    requires net.ninputs <= id
    ensures var I, H, L := net.ninputs, net.nhiddens, net.nhiddenLayers;
            L > 0 || H == I || id - I < H ==> r == RunStart(I, H, L, id - I) + 1
  {
    var I, H, L := net.ninputs, net.nhiddens, net.nhiddenLayers;
    var t := id - I;
    AsWrittenOffset(I, H, L, t);
    BiasOffsetAsWritten(I, H, t) + 1
  }

  /**
   The source's offset of the bias slot of non-input neuron t: the first H
   neurons read I values and every later one H values.
   */
  function BiasOffsetAsWritten(I: nat, H: nat, t: nat): nat
  {
    if t < H then t * (I + 1) else (I + 1) * H + (t - H) * (H + 1)
  }

  /** The source's bias offset is the layout's with a hidden layer, when H = I, or for t < H. */
  lemma AsWrittenOffset(I: nat, H: nat, L: nat, t: nat)
    ensures L > 0 || H == I || t < H ==> BiasOffsetAsWritten(I, H, t) == RunStart(I, H, L, t)
  {
    if t < H {
      RunStartFirstLayer(I, H, L, t);
    } else if L > 0 {
      RunStartLaterLayers(I, H, L, t);
    } else if H == I {
      RunStartFirstLayer(I, H, L, t);
      assert (I + 1) * H + (t - H) * (H + 1) == t * (I + 1);
    }
  }

  /**
   The fan-in the source scans for non-input neuron `id`: I inside the first
   H non-input neurons, H elsewhere. It is the neuron's own fan-in exactly
   when a hidden layer exists, H = I, or the neuron is among the first H.
   */
  function FanInAsWritten(net: Net, id: nat): (r: nat)
    requires net.ninputs <= id
    ensures var I, H, L := net.ninputs, net.nhiddens, net.nhiddenLayers;
            r == FanIn(I, H, L, id - I) <==> L > 0 || H == I || id - I < H
  {
    if id < net.ninputs + net.nhiddens then net.ninputs else net.nhiddens
  }

  /**
   The index of the first fan-in weight of non-input neuron `id`: the slot
   right after the neuron's bias slot in the reference layout. Its run of
   fan-in weights lies inside the weight segment.
   */
  function WeightToNeuron(net: Net, id: nat): (r: nat)
    requires Valid(net) && net.ninputs <= id < net.nneurons
    ensures r == RunStart(net.ninputs, net.nhiddens, net.nhiddenLayers, id - net.ninputs) + 1
    ensures r + FanIn(net.ninputs, net.nhiddens, net.nhiddenLayers, id - net.ninputs) <= net.nweights
  {
    var I, H, L := net.ninputs, net.nhiddens, net.nhiddenLayers;
    var t := id - I;
    RunStartMonotone(I, H, L, t, net.nactivations);
    if L == 0 || t < H then
      RunStartFirstLayer(I, H, L, t);
      t * (I + 1) + 1
    else
      RunStartLaterLayers(I, H, L, t);
      (I + 1) * H + (t - H) * (H + 1) + 1
  }

  /**
   The source's addressing is the layout's exactly when a hidden layer
   exists, or the hidden width equals the input width, or the neuron lies
   among the first H non-input neurons.
   */
  lemma AddressingAgrees(net: Net, id: nat)
    requires Valid(net) && net.ninputs <= id < net.nneurons
    ensures var I, H, L := net.ninputs, net.nhiddens, net.nhiddenLayers;
            (WeightToNeuronAsWritten(net, id) == WeightToNeuron(net, id)
             && FanInAsWritten(net, id) == FanIn(I, H, L, id - I))
            <==> (L > 0 || H == I || id - I < H)
  {
  }

  /**
   With a hidden layer, the source's offset is one past the neuron's bias
   slot, and the fan-in it scans is the neuron's own.
   */
  lemma AsWrittenWithHiddenLayer(net: Net, id: nat)
    requires Valid(net) && net.ninputs <= id < net.nneurons && net.nhiddenLayers > 0
    ensures WeightToNeuronAsWritten(net, id) - 1
            == RunStart(net.ninputs, net.nhiddens, net.nhiddenLayers, id - net.ninputs)
    ensures FanInAsWritten(net, id) == FanIn(net.ninputs, net.nhiddens, net.nhiddenLayers, id - net.ninputs)
    ensures WeightToNeuronAsWritten(net, id) + FanInAsWritten(net, id) <= net.nweights
  {
    AddressingAgrees(net, id);
  }

  /**
   Runs are laid out in neuron order and never overlap: the fan-in weights of
   a neuron end before the bias slot of any later neuron. Hence the offset is
   strictly increasing in the id, and injective.
   */
  lemma WeightToNeuronIncreasing(net: Net, a: nat, b: nat)
    requires Valid(net) && net.ninputs <= a < b < net.nneurons
    ensures WeightToNeuron(net, a) + FanIn(net.ninputs, net.nhiddens, net.nhiddenLayers, a - net.ninputs)
            < WeightToNeuron(net, b)
    ensures WeightToNeuron(net, a) < WeightToNeuron(net, b)
  {
    RunStartMonotone(net.ninputs, net.nhiddens, net.nhiddenLayers, a - net.ninputs, b - net.ninputs);
  }

  /** Some weight among `n` consecutive weights from `off` is nonzero. */
  predicate AnyNonzero(ws: seq<real>, off: nat, n: nat)
    requires off + n <= |ws|
  {
    exists i :: off <= i < off + n && ws[i] != 0.0
  }

  /**
   Reference meaning of connectivity: an input neuron is always connected; a
   non-input neuron is connected when some weight from the previous layer into
   it is nonzero (its bias weight does not count).
   */
  predicate Connected(net: Net, id: nat)
    requires Valid(net) && id < net.nneurons
  {
    id < net.ninputs
    || AnyNonzero(net.weight, WeightToNeuron(net, id), FanIn(net.ninputs, net.nhiddens, net.nhiddenLayers, id - net.ninputs))
  }

  /** Counts the nonzero weights among `n` from `off`, as the probe's loop does, and reports whether any was found. */
  method ScanNonzero(ws: seq<real>, off: nat, n: nat) returns (r: bool)
    requires off + n <= |ws|
    ensures r <==> AnyNonzero(ws, off, n)
  {
    var count: nat := 0;
    var i := 0;
    while i < n
      invariant i <= n
      invariant count != 0 <==> exists k :: off <= k < off + i && ws[k] != 0.0
    {
      if ws[off + i] != 0.0 {
        count := count + 1;
      }
      i := i + 1;
    }
    r := count != 0;
  }

  /** What the source's probe does: answers from the weights, or reads on past the weight segment into the outputs. */
  datatype Probe = Answer(connected: bool) | ReadsPastWeights

  /**
   The connectivity probe as the source writes it: inputs are connected;
   otherwise the weights from the as-written offset over the as-written
   fan-in are scanned. When that window leaves the weight segment (possible
   only without a hidden layer) the source goes on reading the output values
   stored right after the weights in the same allocation and answers from
   them; here that is the `ReadsPastWeights` outcome. With a hidden layer, or
   when H = I, the probe answers the reference `Connected`.
   */
  method NeuronIsConnectedAsWritten(net: Net, id: nat) returns (r: Probe)
    requires Valid(net) && id < net.nneurons
    ensures id < net.ninputs ==> r == Answer(true)
    ensures r == ReadsPastWeights <==>
            id >= net.ninputs && WeightToNeuronAsWritten(net, id) + FanInAsWritten(net, id) > |net.weight|
    ensures id >= net.ninputs && r.Answer? ==>
            (r.connected <==> AnyNonzero(net.weight, WeightToNeuronAsWritten(net, id), FanInAsWritten(net, id)))
    ensures net.nhiddenLayers > 0 || net.nhiddens == net.ninputs ==> r == Answer(Connected(net, id))
  {
    if id < net.ninputs {
      return Answer(true);
    }
    var start := WeightToNeuronAsWritten(net, id);
    var nweights := net.nhiddens;
    if id < net.ninputs + net.nhiddens {
      nweights := net.ninputs;
    }
    if start + nweights > |net.weight| {
      if net.nhiddenLayers > 0 || net.nhiddens == net.ninputs {
        AddressingAgrees(net, id);
      }
      return ReadsPastWeights;
    }
    var any := ScanNonzero(net.weight, start, nweights);
    AddressingAgrees(net, id);
    r := Answer(any);
  }

  /** The connectivity probe over the reference layout: right for every topology. */
  method IsConnected(net: Net, id: nat) returns (r: bool)
    requires Valid(net) && id < net.nneurons
    ensures r == Connected(net, id)
    ensures id < net.ninputs ==> r
  {
    if id < net.ninputs {
      return true;
    }
    var fanIn := FanIn(net.ninputs, net.nhiddens, net.nhiddenLayers, id - net.ninputs);
    r := ScanNonzero(net.weight, WeightToNeuron(net, id), fanIn);
  }

  /** On a freshly created network no non-input neuron is connected, whatever the topology. */
  lemma FreshNetworkIsUnconnected(I: nat, H: nat, O: nat, L: nat, id: nat)
    requires I > 0 && H > 0 && O > 0 && I <= id < TotalNeurons(I, H, O, L)
    ensures !Connected(Create(I, H, O, L), id)
  {
  }

  /**
   Setting one fan-in weight of non-input neuron `id` of a fresh network to a
   nonzero value connects exactly that neuron: the fan-in runs of distinct
   neurons are disjoint, so no other neuron's run sees the write.
   */
  lemma OneWeightConnectsOneNeuron(I: nat, H: nat, O: nat, L: nat, id: nat, k: nat, v: real, other: nat)
    requires I > 0 && H > 0 && O > 0 && I <= id < TotalNeurons(I, H, O, L) && other < TotalNeurons(I, H, O, L)
    requires k < FanIn(I, H, L, id - I) && v != 0.0
    ensures var c := Create(I, H, O, L);
            var net := c.(weight := c.weight[WeightToNeuron(c, id) + k := v]);
            Connected(net, other) <==> other < I || other == id
  {
    var c := Create(I, H, O, L);
    var w := WeightToNeuron(c, id);
    var net := c.(weight := c.weight[w + k := v]);
    assert WeightToNeuron(net, id) == w;
    if other == id {
      assert net.weight[w + k] != 0.0;
    } else if I <= other {
      var u, n := WeightToNeuron(net, other), FanIn(I, H, L, other - I);
      assert u == WeightToNeuron(c, other);
      if other < id {
        WeightToNeuronIncreasing(c, other, id);
      } else {
        WeightToNeuronIncreasing(c, id, other);
      }
      UntouchedRunStaysZero(c.weight, w + k, v, u, n);
    }
  }

  /** A run of an all-zero sequence that does not contain slot `p` stays all zero after `p` is set. */
  lemma UntouchedRunStaysZero(ws: seq<real>, p: nat, v: real, u: nat, n: nat)
    requires AllZero(ws) && p < |ws| && u + n <= |ws| && (u + n <= p || p < u)
    ensures !AnyNonzero(ws[p := v], u, n)
  {
  }

  /**
   Without a hidden layer (two inputs, one hidden width, three outputs), the
   last output neuron, id 4, is addressed as if it followed a hidden layer:
   the source's offset 6 is that neuron's bias slot, the fan-in it scans is 1
   instead of 2, and the layout's first fan-in slot is 7.
   */
  lemma NoHiddenLayerMisaddresses()
    ensures var net := Create(2, 1, 3, 0);
            && WeightToNeuronAsWritten(net, 4) == 6
            && RunStart(2, 1, 0, 2) == 6
            && WeightToNeuron(net, 4) == 7
            && FanInAsWritten(net, 4) == 1
            && FanIn(2, 1, 0, 2) == 2
  {
    var net := Create(2, 1, 3, 0);
    assert RunStart(2, 1, 0, 2) == 6 by {
      RunStartFirstLayer(2, 1, 0, 2);
    }
  }

  /**
   Without a hidden layer and with H > I, the source's probe of the last
   output neuron scans past the end of the weights: for one input, hidden
   width two and three outputs the segment holds 6 weights, and the scan
   covers slots 5 and 6.
   */
  lemma NoHiddenLayerReadsPastWeights()
    ensures var net := Create(1, 2, 3, 0);
            && net.nweights == 6
            && WeightToNeuronAsWritten(net, 3) == 5
            && FanInAsWritten(net, 3) == 2
            && WeightToNeuronAsWritten(net, 3) + FanInAsWritten(net, 3) > net.nweights
  {
  }
}
