/**
 The layout calculator of the packed feed-forward network: pure sizing
 functions of the topology (I inputs, hidden width H, O outputs, L hidden
 layers), and the per-neuron geometry every other component derives from it.

 Non-input neurons are numbered by their activation-tag index `t`
 (0 <= t < H*L + O): hidden layer 0 first, then the later hidden layers, then
 the output layer. Each such neuron owns one weight run made of a bias weight
 followed by its fan-in weights.
 */
module Layout {

  /** Weights feeding all hidden layers: exactly the runs of the H*L hidden neurons. */
  function HiddenWeights(I: nat, H: nat, O: nat, L: nat): (r: nat)
    ensures r == RunStart(I, H, L, H * L)
  {
    if L == 0 then 0
    else
      SpanAfterFirstLayer(H, L, 0);
      RunStartLaterLayers(I, H, L, H * L);
      (I + 1) * H + (L - 1) * (H + 1) * H
  }

  /**
   Weights feeding the output layer, from the last hidden layer or from the
   inputs when there is none: exactly the runs of the O output neurons.
   */
  function OutputWeights(I: nat, H: nat, O: nat, L: nat): (r: nat)
    ensures RunStart(I, H, L, H * L) + r == RunStart(I, H, L, H * L + O)
  {
    OutputRunsSpan(I, H, O, L);
    (if L > 0 then H + 1 else I + 1) * O
  }

  /** The whole weight segment: one run per non-input neuron. */
  function TotalWeights(I: nat, H: nat, O: nat, L: nat): (r: nat)
    ensures r == RunStart(I, H, L, TotalActivations(H, O, L))
  {
    TotalActivationsIs(H, O, L);
    HiddenWeights(I, H, O, L) + OutputWeights(I, H, O, L)
  }

  /** Inputs, hidden neurons and outputs: one output slot per input and one per tagged neuron. */
  function TotalNeurons(I: nat, H: nat, O: nat, L: nat): (r: nat)
    ensures r == I + TotalActivations(H, O, L)
  {
    TotalActivationsIs(H, O, L);
    I + H * L + O
  }

  /** One activation tag per non-input neuron: H per hidden layer, then O for the output layer. */
  function TotalActivations(H: nat, O: nat, L: nat): (r: nat)
    ensures O <= r
  {
    if L == 0 then O else TotalActivations(H, O, L - 1) + H
  }

  /** The tag count in closed form, as the header computes it. */
  lemma {:induction false} TotalActivationsIs(H: nat, O: nat, L: nat)
    ensures TotalActivations(H, O, L) == H * L + O
  {
    if L > 0 {
      TotalActivationsIs(H, O, L - 1);
      assert H * L == H * (L - 1) + H;
    }
  }

  /** The layer of non-input neuron `t`: hidden layers are 0 .. L-1, the output layer is L. */
  function LayerOf(H: nat, L: nat, t: nat): nat
  {
    if L == 0 || t < H then 0 else 1 + LayerOf(H, L - 1, t - H)
  }

  /** Fan-in width (bias excluded) of non-input neuron `t`. */
  function FanIn(I: nat, H: nat, L: nat, t: nat): nat
  {
    if t < H || L == 0 then I else H
  }

  /** Index in the output segment of the first value neuron `t` reads. */
  function InputBase(I: nat, H: nat, L: nat, t: nat): nat
  {
    if L == 0 || t < H then 0
    else if LayerOf(H, L - 1, t - H) == 0 then I
    else InputBase(I, H, L - 1, t - H) + H
  }

  /**
   Reference definition of the weight layout: the bias slot of non-input
   neuron `t` is the total length of the weight runs of the neurons before it.
   */
  function RunStart(I: nat, H: nat, L: nat, t: nat): nat
  {
    if t == 0 then 0 else RunStart(I, H, L, t - 1) + FanIn(I, H, L, t - 1) + 1
  }

  lemma MulMonotone(a: nat, b: nat, c: nat)
    requires a <= b
    ensures a * c <= b * c
  {
  }

  /** A neuron among the H neurons that follow the first i*H ones is in hidden layer i. */
  lemma {:induction false} LayerOfNeuron(H: nat, L: nat, i: nat, t: nat)
    requires i * H <= t < i * H + H && i < L
    ensures LayerOf(H, L, t) == i
  {
    if i > 0 {
      MulMonotone(1, i, H);
      assert (i - 1) * H + H == i * H;
      LayerOfNeuron(H, L - 1, i - 1, t - H);
    }
  }

  /** Every neuron past the H*L hidden ones is in the output layer L. */
  lemma {:induction false} LayerOfOutput(H: nat, L: nat, t: nat)
    requires H * L <= t
    ensures LayerOf(H, L, t) == L
  {
    if L > 0 {
      assert H * L == H * (L - 1) + H;
      LayerOfOutput(H, L - 1, t - H);
    }
  }

  /** Every neuron reads only values written before it. */
  lemma ReadsEarlier(I: nat, H: nat, L: nat, t: nat)
    ensures InputBase(I, H, L, t) + FanIn(I, H, L, t) <= I + t
  {
    InputWindow(I, H, L, t);
  }

  /**
   Every non-input neuron reads the values of the layer right before it:
   layer 0 reads the I inputs from index 0, layer k > 0 reads the H values
   written for layer k - 1, all of which precede the neuron's own output
   slot I + t.
   */
  lemma {:induction false} InputWindow(I: nat, H: nat, L: nat, t: nat)
    ensures var layer := LayerOf(H, L, t);
            var base := InputBase(I, H, L, t);
            (layer == 0 ==> base == 0 && FanIn(I, H, L, t) == I)
            && (layer > 0 ==> base == I + (layer - 1) * H && FanIn(I, H, L, t) == H)
    ensures InputBase(I, H, L, t) + FanIn(I, H, L, t) <= I + t
  {
    if L > 0 && t >= H {
      InputWindow(I, H, L - 1, t - H);
      var inner := LayerOf(H, L - 1, t - H);
      if inner > 0 {
        assert (inner - 1) * H + H == inner * H;
      }
    }
  }

  /**
   Closed form of the reference layout: the runs of hidden layer 0 (or of the
   output layer when L = 0) have stride I + 1, every later run stride H + 1.
   */
  lemma {:induction false} RunStartClosedForm(I: nat, H: nat, L: nat, t: nat)
    ensures RunStart(I, H, L, t) ==
            if L == 0 || t <= H then t * (I + 1) else (I + 1) * H + (t - H) * (H + 1)
  {
    if t > 0 {
      RunStartClosedForm(I, H, L, t - 1);
      if L == 0 || t <= H {
        assert (t - 1) * (I + 1) + I + 1 == t * (I + 1);
      } else if t - 1 == H {
        assert (t - H) * (H + 1) == H + 1;
      } else {
        assert (t - 1 - H) * (H + 1) + H + 1 == (t - H) * (H + 1);
      }
    }
  }

  /** Later neurons start later: runs are laid out in neuron order. */
  lemma {:induction false} RunStartMonotone(I: nat, H: nat, L: nat, t: nat, u: nat)
    requires t <= u
    ensures RunStart(I, H, L, t) + (if t < u then FanIn(I, H, L, t) + 1 else 0) <= RunStart(I, H, L, u)
  {
    if t < u {
      RunStartMonotone(I, H, L, t, u - 1);
    }
  }

  /** Runs of hidden layer 0, or of the output layer when L = 0, have stride I + 1. */
  lemma RunStartFirstLayer(I: nat, H: nat, L: nat, t: nat)
    requires L == 0 || t <= H
    ensures RunStart(I, H, L, t) == t * (I + 1)
  {
    RunStartClosedForm(I, H, L, t);
  }

  /** Past hidden layer 0 every run has stride H + 1. */
  lemma RunStartLaterLayers(I: nat, H: nat, L: nat, t: nat)
    requires L > 0 && t >= H
    ensures RunStart(I, H, L, t) == (I + 1) * H + (t - H) * (H + 1)
  {
    RunStartClosedForm(I, H, L, t);
  }

  /** Past hidden layer 0 every run has H + 1 slots. */
  lemma SpanAfterFirstLayer(H: nat, L: nat, O: nat)
    requires L > 0
    ensures H * L + O >= H
    ensures (H * L + O - H) * (H + 1) == (L - 1) * (H + 1) * H + (H + 1) * O
  {
    var m: nat := L - 1;
    assert H * L == H * m + H;
    var k: nat := H * L + O - H;
    assert k == H * m + O;
    assert k * (H + 1) == (H * m) * (H + 1) + O * (H + 1);
    assert (H * m) * (H + 1) == m * (H + 1) * H;
    assert O * (H + 1) == (H + 1) * O;
  }

  /** The O output runs have H + 1 slots each after a hidden layer, I + 1 without one. */
  lemma OutputRunsSpan(I: nat, H: nat, O: nat, L: nat)
    ensures RunStart(I, H, L, H * L) + (if L > 0 then H + 1 else I + 1) * O == RunStart(I, H, L, H * L + O)
  {
    if L == 0 {
      assert H * L == 0;
      RunStartFirstLayer(I, H, L, O);
    } else {
      MulMonotone(1, L, H);
      var k: nat := H * L - H;
      RunStartLaterLayers(I, H, L, H * L);
      RunStartLaterLayers(I, H, L, H * L + O);
      assert H * L + O - H == k + O;
      assert (k + O) * (H + 1) == k * (H + 1) + (H + 1) * O;
    }
  }

  /**
   The tag segment holds the hidden tags first: a tag lies in a hidden layer
   exactly when it is below nactivations - O, and the last O tags are the
   output layer.
   */
  lemma {:induction false} TagLayers(H: nat, O: nat, L: nat, t: nat)
    requires t < TotalActivations(H, O, L)
    ensures t < TotalActivations(H, O, L) - O <==> LayerOf(H, L, t) < L
  {
    if L > 0 && t >= H {
      TagLayers(H, O, L - 1, t - H);
    }
  }

  /** Every run lies inside the weight segment. */
  lemma RunInBounds(I: nat, H: nat, O: nat, L: nat, t: nat)
    requires t < TotalActivations(H, O, L)
    ensures RunStart(I, H, L, t) + FanIn(I, H, L, t) < TotalWeights(I, H, O, L)
  {
    RunStartMonotone(I, H, L, t, TotalActivations(H, O, L));
  }

  /** The worked example: two inputs, one hidden layer of four, one output. */
  lemma LayoutExample()
    ensures TotalWeights(2, 4, 1, 1) == 17
    ensures TotalNeurons(2, 4, 1, 1) == 7
    ensures TotalActivations(4, 1, 1) == 5
  {
  }
}
