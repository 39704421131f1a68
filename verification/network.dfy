/**
 The network record and its lifecycle: creation, duplication and the bulk
 setters. The single packed allocation of the original is represented by three
 separate sequences; the header counts are kept as fields, as in the record.
 */
module Network {
  import opened Layout

  /** Per-neuron nonlinearity selector; the zero tag is the passthrough. */
  datatype Activation = Passthrough | Sigmoid | FastSigmoid | Relu

  datatype Net = Net(
    ninputs: nat,
    nhiddens: nat,
    noutputs: nat,
    nhiddenLayers: nat,
    nweights: nat,
    nneurons: nat,
    nactivations: nat,
    bias: real,
    weight: seq<real>,
    output: seq<real>,
    activation: seq<Activation>)

  /**
   Well-formedness of a network as the allocator produces it: non-zero widths,
   header counts given by the layout, segments of exactly those sizes. The
   weight count is stated as one run per non-input neuron; `ValidSizes` shows
   it is the closed-form total of the layout calculator.
   */
  predicate Valid(net: Net)
  {
    && net.ninputs > 0 && net.nhiddens > 0 && net.noutputs > 0
    && net.nweights == RunStart(net.ninputs, net.nhiddens, net.nhiddenLayers, net.nactivations)
    && net.nneurons == net.ninputs + net.nactivations
    && net.nactivations == TotalActivations(net.nhiddens, net.noutputs, net.nhiddenLayers)
    && |net.weight| == net.nweights
    && |net.output| == net.nneurons
    && |net.activation| == net.nactivations
  }

  /** A valid network has exactly the segment sizes the layout calculator gives. */
  lemma ValidSizes(net: Net)
    requires Valid(net)
    ensures |net.weight| == TotalWeights(net.ninputs, net.nhiddens, net.noutputs, net.nhiddenLayers)
    ensures |net.output| == TotalNeurons(net.ninputs, net.nhiddens, net.noutputs, net.nhiddenLayers)
    ensures |net.activation| == TotalActivations(net.nhiddens, net.noutputs, net.nhiddenLayers)
  {
  }

  predicate AllZero(s: seq<real>)
  {
    forall i :: 0 <= i < |s| ==> s[i] == 0.0
  }

  /** Same topology and header counts. */
  predicate SameShape(a: Net, b: Net)
  {
    && a.ninputs == b.ninputs && a.nhiddens == b.nhiddens
    && a.noutputs == b.noutputs && a.nhiddenLayers == b.nhiddenLayers
    && a.nweights == b.nweights && a.nneurons == b.nneurons
    && a.nactivations == b.nactivations
  }

  /**
   A zero-filled network of the given topology: every weight, output value and
   tag is zero (tag zero is the passthrough) and the shared bias is -1.
   */
  function Create(I: nat, H: nat, O: nat, L: nat): (r: Net)
    requires I > 0 && H > 0 && O > 0
    ensures Valid(r)
    ensures r.ninputs == I && r.nhiddens == H && r.noutputs == O && r.nhiddenLayers == L
    ensures |r.weight| == TotalWeights(I, H, O, L)
    ensures |r.output| == TotalNeurons(I, H, O, L)
    ensures |r.activation| == TotalActivations(H, O, L)
    ensures AllZero(r.weight) && AllZero(r.output)
    ensures forall t :: 0 <= t < |r.activation| ==> r.activation[t] == Passthrough
    ensures r.bias == -1.0
  {
    var nw := TotalWeights(I, H, O, L);
    var nn := TotalNeurons(I, H, O, L);
    var na := TotalActivations(H, O, L);
    Net(I, H, O, L, nw, nn, na, -1.0,
        seq(nw, _ => 0.0), seq(nn, _ => 0.0), seq(na, _ => Passthrough))
  }

  /**
   Duplicate: the byte count of the block is taken from the header counts and
   that many items of each segment are copied into fresh storage. The result
   equals the source in every field; being a value, later updates of either
   never reach the other.
   */
  method Copy(net: Net) returns (r: Net)
    requires Valid(net)
    ensures Valid(r) && SameShape(r, net)
    ensures r.bias == net.bias
    ensures r.weight == net.weight && r.output == net.output && r.activation == net.activation
  {
    var weight: seq<real> := [];
    while |weight| < net.nweights
      invariant |weight| <= net.nweights
      invariant weight == net.weight[..|weight|]
    {
      weight := weight + [net.weight[|weight|]];
    }
    var output: seq<real> := [];
    while |output| < net.nneurons
      invariant |output| <= net.nneurons
      invariant output == net.output[..|output|]
    {
      output := output + [net.output[|output|]];
    }
    var activation: seq<Activation> := [];
    while |activation| < net.nactivations
      invariant |activation| <= net.nactivations
      invariant activation == net.activation[..|activation|]
    {
      activation := activation + [net.activation[|activation|]];
    }
    r := Net(net.ninputs, net.nhiddens, net.noutputs, net.nhiddenLayers,
             net.nweights, net.nneurons, net.nactivations, net.bias,
             weight, output, activation);
  }

  /**
   Tags every hidden neuron with `hidden` and every output neuron with
   `output`; the tag segment holds the hidden tags first, then the O output
   tags.
   */
  function SetActivations(net: Net, hidden: Activation, output: Activation): (r: Net)
    requires Valid(net)
    ensures Valid(r) && SameShape(r, net)
    ensures r.bias == net.bias && r.weight == net.weight && r.output == net.output
    ensures |r.activation| == |net.activation|
    ensures forall t :: 0 <= t < net.nactivations - net.noutputs ==> r.activation[t] == hidden
    ensures forall t :: net.nactivations - net.noutputs <= t < net.nactivations ==> r.activation[t] == output
  {
    var nhidden := net.nactivations - net.noutputs;
    TotalActivationsIs(net.nhiddens, net.noutputs, net.nhiddenLayers);
    net.(activation := seq(nhidden, _ => hidden) + seq(net.noutputs, _ => output))
  }

  /** Sets the shared bias scalar; nothing else changes. */
  function SetBias(net: Net, bias: real): (r: Net)
    ensures r.bias == bias
    ensures SameShape(r, net)
    ensures r.weight == net.weight && r.output == net.output && r.activation == net.activation
    ensures Valid(net) ==> Valid(r)
  {
    net.(bias := bias)
  }

  /** Sets every weight to `w`; nothing else changes. */
  function SetWeights(net: Net, w: real): (r: Net)
    requires Valid(net)
    ensures Valid(r) && SameShape(r, net)
    ensures r.bias == net.bias && r.output == net.output && r.activation == net.activation
    ensures |r.weight| == net.nweights
    ensures forall i :: 0 <= i < |r.weight| ==> r.weight[i] == w
  {
    net.(weight := seq(net.nweights, _ => w))
  }
}
