# Packed feed-forward network engine

A Dafny model of the feed-forward network engine of neat-o (`src/nn/nn.c`). The
engine keeps a network of I inputs, L hidden layers of width H and O outputs in
one allocation. That allocation holds three segments:

- the weights, one run per non-input neuron: a bias weight followed by the fan-in weights;
- the neuron outputs, with the inputs first;
- one activation tag per non-input neuron.

Almost everything the engine does is offset arithmetic over these segments.

The model has six modules, one file each:

- `Layout` (`layout.dfy`) holds the sizing functions and a reference definition of the weight layout. `RunStart(t)` is the total length of the runs of the non-input neurons before neuron `t`. Each sizing function's contract ties its closed form to that definition, and lemmas connect the input windows to it.
- `Network` (`network.dfy`) holds the network record as three sequences plus the header counts. It also holds creation, copy and the bulk setters.
- `Evaluate` (`evaluate.dfy`) holds the forward pass. `Forward` is a neuron-by-neuron reference definition. `Run` is the source's single linear walk over the weights, with the input cursor advanced layer by layer, and it is proved equal to `Forward`. It also proves that the walk consumes exactly the weight segment. The float multiply, add and activation are parameters (`Ops`).
- `Introspect` (`introspect.dfy`) holds neuron addressing and the connectivity probe, both as written and as the layout requires.
- `Growth` (`growth.dfy`) holds hidden-layer growth: the migration into a deeper layout and the diagonal identity bypass written with a stride of H + 2. Both versions are modelled: as written, and with the new block located by the layout. Growth is modelled from every topology it handles consistently: at least one hidden layer, or none with H = I (`Growth.Growable`).
- `Preservation` (`preservation.dfy`) proves that growth with a unit bypass keeps the network's outputs.

What growth does to behaviour, as the model states it:

- Growth preserves the outputs under these conditions (`Preservation.GrowthPreservesOutputs`):
  - the bypass weight is 1;
  - the old bias is already -1, because the new network comes from `nn_ffnet_create`, which resets the bias to -1 and loses the old one (`Growth.Migrate`);
  - the multiply, add and passthrough activation obey the identities a bypass needs (`Preservation.IdentityLaws`);
  - the bypass is written over the new layer's block (`Growth.AddHiddenLayer`).
  
  The grown network then writes the old input and hidden values, a copy of the old last hidden layer, and the old output values.
- The source writes the bypass over the new block only with at most one old hidden layer or width one (`Growth.NewBlockAsWritten`). Otherwise the writes land among the copied old weights (see Findings).
- The bypass weight does not go to each new neuron's first fan-in weight. The cursor writes fan-in `j` of new neuron `j`, a diagonal (`Growth.WriteBypass`, `Growth.CursorIsDiagonal`). New neuron `j` therefore passes on neuron `j` of the layer before it (`Growth.NewLayerReadsLastHidden`).

## Model

| member | source | states |
|---|---|---|
| Layout.HiddenWeights | src/nn/nn.c:81-96 | The hidden-weight formula, 0 without hidden layers and (I+1)H + (L-1)(H+1)H otherwise, is the total length of the runs of the H*L hidden neurons. |
| Layout.OutputWeights | src/nn/nn.c:98-112 | The output-weight formula, (H+1)O after a hidden layer and (I+1)O without one, is the total length of the O output runs that follow the hidden runs. |
| Layout.OutputRunsSpan | src/nn/nn.c:104-109 | Each output run has H + 1 slots after a hidden layer and I + 1 without one. |
| Layout.TotalWeights | src/nn/nn.c:114-130 | Hidden weights plus output weights is exactly one run per non-input neuron. |
| Layout.TotalNeurons | src/nn/nn.c:132-138 | The neuron count I + HL + O is one output slot per input plus one per tagged neuron. |
| Layout.TotalActivations | src/nn/nn.c:140-145 | Counting H tags per hidden layer and then O for the output layer gives at least O tags. |
| Layout.TotalActivationsIs | src/nn/nn.c:140-145 | That per-layer tag count is the header's closed form HL + O. |
| Layout.TagLayers | src/nn/nn.c:296-302 | A tag lies in a hidden layer exactly when it is below nactivations - O. The last O tags are the output layer. |
| Layout.ReadsEarlier | src/nn/nn.c:345-365 | Every neuron reads only values written before its own output slot. |
| Layout.LayoutExample | src/nn/nn.c:81-145 | Two inputs, one hidden layer of four and one output give 17 weights, 7 neurons and 5 tags. |
| Layout.RunStartClosedForm | src/nn/nn.c:81-112 | Runs of hidden layer 0 (or of the outputs when L = 0) have stride I + 1. Every later run has stride H + 1. |
| Layout.RunStartMonotone | src/nn/nn.c:352-362 | The runs are laid out in neuron order without overlap: a neuron's run ends at or before any later neuron's bias slot. |
| Layout.InputWindow | src/nn/nn.c:345-365 | Layer 0 reads the I values from index 0. Layer k > 0 reads the H values written for layer k - 1. Every window ends before the neuron's own output slot. |
| Layout.RunInBounds | src/nn/nn.c:390 | Every neuron's run lies inside the weight segment. |
| Network.ValidSizes | src/nn/nn.c:156-185 | A well-formed network's segments have exactly the lengths the layout calculator gives. |
| Network.Create | src/nn/nn.c:147-193 | The result is well formed, has the given topology and exact segment lengths, has every weight, output and tag zero (passthrough), and has bias -1. |
| Network.Copy | src/nn/nn.c:195-212 | The copy has the same topology, counts, bias, weights, outputs and tags as the original. |
| Network.SetActivations | src/nn/nn.c:289-303 | The first nactivations - O tags are `hidden` and the last O are `output`. Nothing else changes. |
| Network.SetBias | src/nn/nn.c:305-310 | The bias is the given value. Shape, weights, outputs and tags are unchanged, and well-formedness is kept. |
| Network.SetWeights | src/nn/nn.c:312-319 | Every weight is the given value. Nothing else changes. |
| Evaluate.EvalNeuron | src/nn/nn.c:352-361 | Reading a neuron's bias weight and fan-in weights from its bias slot yields the reference neuron value. The cursor ends at the next neuron's bias slot. |
| Evaluate.EvalBlock | src/nn/nn.c:352-362 | Walking the neurons of a block that share one input window extends the reference output to the block's end. The cursor ends at the bias slot after the block. |
| Evaluate.BlockGeometry | src/nn/nn.c:347-350 | Every neuron of a layer reads from the layer's input start and has fan-in I in layer 0 and H elsewhere. |
| Evaluate.LayerIsUniform | src/nn/nn.c:345-365 | All neurons of one layer share one input window and one fan-in. |
| Evaluate.EvalHiddenLayer | src/nn/nn.c:345-365 | One hidden layer of the walk writes the next H reference values and leaves the cursor at the next layer's first bias slot. |
| Evaluate.EvalHiddenLayers | src/nn/nn.c:341-365 | After all hidden layers the outputs are the reference values up to the first output neuron, with the cursor at that neuron's bias slot. |
| Evaluate.NextLayerInput | src/nn/nn.c:364 | Advancing the input cursor by the fan-in of layer i (I for layer 0, H after) lands on the first value layer i wrote, the window of layer i + 1. |
| Evaluate.EvalOutputLayer | src/nn/nn.c:371-388 | The output layer completes the reference values. The weight cursor ends at nweights. |
| Evaluate.Run | src/nn/nn.c:330-394 | The walk writes exactly the reference values with the inputs in front. It consumes exactly nweights weights and fills all nneurons output slots. The returned view starts at nneurons - O. |
| Evaluate.ForwardPrefix | src/nn/nn.c:343-387 | Evaluating more neurons never changes values already written. |
| Evaluate.ForwardIsTrace | src/nn/nn.c:338-388 | Every prefix of the forward pass starts with the inputs, and each later slot holds its neuron's value over the slots before it. |
| Evaluate.ForwardKeepsInputs | src/nn/nn.c:338-339 | The inputs are copied unchanged to the front of the output segment. |
| Evaluate.SumOfZeroWeights | src/nn/nn.c:354-359 | A neuron sum over zero weights is zero for any bias and inputs, when a zero weight annihilates. |
| Evaluate.ZeroRunValue | src/nn/nn.c:354-361 | A neuron whose run is all zero outputs its activation of 0. |
| Evaluate.ZeroWeightsGiveActivationOfZero | src/nn/nn.c:330-394 | On an all-zero network every non-input neuron outputs its activation of 0, whatever the inputs and the bias. |
| Introspect.WeightToNeuronAsWritten | src/nn/nn.c:424-442 | The source's offset is one past the neuron's bias slot in the layout whenever a hidden layer exists, H = I, or the neuron is among the first H non-input neurons. |
| Introspect.AsWrittenOffset | src/nn/nn.c:430-441 | The source's bias offset, t(I+1) for the first H neurons and (I+1)H + (t-H)(H+1) after, is the layout's under the same conditions. |
| Introspect.FanInAsWritten | src/nn/nn.c:408-412 | The fan-in the source scans (I for the first H non-input neurons, H after) is the neuron's own exactly when L > 0, H = I, or the neuron is among the first H. |
| Introspect.WeightToNeuron | src/nn/nn.c:424-442 | The offset is one past the neuron's bias slot in the layout, and offset + fan-in stays inside the weights. |
| Introspect.AddressingAgrees | src/nn/nn.c:430-441 | The source's offset and fan-in match the layout exactly when L > 0, H = I, or the neuron is among the first H non-input neurons. |
| Introspect.AsWrittenWithHiddenLayer | src/nn/nn.c:424-442 | With L >= 1, the slot before the source's offset is the neuron's bias slot. Its fan-in is the neuron's own, and offset + fan-in <= nweights. |
| Introspect.WeightToNeuronIncreasing | src/nn/nn.c:424-442 | Offsets strictly increase with the id, so they are injective. A neuron's fan-in window ends before the next neuron's offset. |
| Introspect.ScanNonzero | src/nn/nn.c:414-421 | The counting scan reports true exactly when some weight in the window is nonzero. |
| Introspect.NeuronIsConnectedAsWritten | src/nn/nn.c:396-422 | Inputs are connected. The probe reads past the weights exactly when the source's window leaves the segment. Otherwise it answers whether a weight in the source's window is nonzero, which with L >= 1 or H = I is the reference connectivity. |
| Introspect.IsConnected | src/nn/nn.c:396-422 | The probe over the layout answers the reference connectivity for every topology, and inputs are connected. |
| Introspect.FreshNetworkIsUnconnected | src/nn/nn.c:396-422 | On a freshly created network no non-input neuron is connected. |
| Introspect.OneWeightConnectsOneNeuron | src/nn/nn.c:396-442 | On a fresh network, setting one fan-in weight of a neuron to a nonzero value makes exactly the inputs and that neuron connected. |
| Introspect.NoHiddenLayerMisaddresses | src/nn/nn.c:430-434 | With L = 0, I = 2, H = 1, O = 3, neuron 4 gets offset 6, which is its bias slot, and fan-in 1. The layout gives offset 7 and fan-in 2. |
| Introspect.NoHiddenLayerReadsPastWeights | src/nn/nn.c:406-419 | With L = 0, I = 1, H = 2, O = 3, the probe of neuron 3 scans slots 5 and 6 of a 6-weight segment. |
| Growth.GrowthSizes | src/nn/nn.c:229-262 | One more hidden layer adds (H+1)H weights and H tags and keeps the output block size (H+1)O. |
| Growth.WeightAtHiddenLayerAsWritten | src/nn/nn.c:70-79 | The source's pointer, (I+1)H + (H+1)·layer, is never past the layout's block start when H > 0. It equals it exactly when layer = 0 or H = 1. |
| Growth.StrideGap | src/nn/nn.c:76-78 | A stride of H + 1 per layer falls short of (H + 1)H per layer, except on layer 0 or for H = 1. |
| Growth.WeightAtHiddenLayer | src/nn/nn.c:70-79 | The weights leaving hidden layer `layer` start at the bias slot of the next layer's first neuron. |
| Growth.CopyInto | src/nn/nn.c:252-259 | A copy of a window replaces exactly that window with the source items. Everything else is unchanged. |
| Growth.Spread | src/nn/nn.c:237-259 | The head copy and the tail copy of a segment land at the front and at the offset. The items in between are the new network's own. |
| Growth.MigrateTags | src/nn/nn.c:235-244 | The old hidden tags are a prefix, the H new tags are passthrough, and the old output tags sit unchanged at the tail. |
| Growth.MigrateWeights | src/nn/nn.c:246-259 | The old non-output weights are a prefix, the (H+1)H new weights are zero, and the old output block sits unchanged at the tail. |
| Growth.Migrate | src/nn/nn.c:221-262 | The migrated network is well formed, has one more hidden layer and bias -1, has zero outputs, and holds the migrated tags and weights. |
| Growth.MigrationKeepsHiddenRuns | src/nn/nn.c:247-254 | In the deeper layout, each old hidden neuron's run starts where it did and has the same fan-in. |
| Growth.MigrationShiftsOutputRuns | src/nn/nn.c:256-259 | In the deeper layout, each old output neuron's run moves by exactly (H+1)H slots and still reads H values. |
| Growth.StrideCount | src/nn/nn.c:280-284 | After j steps of H + 2 the cursor is inside the new block exactly when j < H, so the loop writes H times. |
| Growth.CursorIsDiagonal | src/nn/nn.c:277-284 | The cursor after j steps is block offset 1 + j(H+2), which is fan-in j of block run j. |
| Growth.BlockSlotInjective | src/nn/nn.c:277-284 | Inside a block of H runs of H + 1 slots, distinct (neuron, fan-in) pairs name distinct slots, so no bypass write overwrites another. |
| Growth.WriteBypass | src/nn/nn.c:277-284 | The do-while writes the weight at fan-in j of run j for every j < H and changes nothing else. |
| Growth.NewBlock | src/nn/nn.c:267-275 | The new layer's block in the grown network (slot 0 for a first hidden layer, else the weights leaving the layer before) is where the old hidden weights end. |
| Growth.NewBlockAsWritten | src/nn/nn.c:267-275 | The source's block location is never later than the layout's. It is the same exactly when the grown network has at most two hidden layers or H = 1. |
| Growth.Grow | src/nn/nn.c:261-286 | Migration followed by the bypass from a given block start. Only the diagonal of that block differs from the migration. |
| Growth.AddHiddenLayerAsWritten | src/nn/nn.c:221-287 | Growth with the source's block pointer: the result is the migration except for diagonal writes in the block at the source's pointer. |
| Growth.AddHiddenLayer | src/nn/nn.c:221-287 | Growth with the layout's block start: the result is well formed and equals the migration outside the new block. Inside the block, fan-in j of run j is the given weight and every other slot is zero. |
| Growth.NewBlockIsNewRuns | src/nn/nn.c:267-284 | Slot k of block run j is slot k of the run of new neuron H*L + j in the grown layout. |
| Growth.NewLayerReadsLastHidden | src/nn/nn.c:281 | Each new neuron reads the H values of the last old hidden layer, so fan-in j connects new neuron j to neuron j of the layer before it. |
| Growth.StrideBugOverwritesOldWeight | src/nn/nn.c:78 | Growing from two hidden layers of width two (I = O = 1), the source points at 7 instead of 10. Its first write, at slot 8, hits fan-in 0 of old hidden neuron 3. |
| Growth.GrowthFromNoHiddenLayerUnderflows | src/nn/nn.c:248-254 | From L = 0 with H > I, the old weight count is below the new output block size, so the prefix copy length is negative. |
| Growth.GrowthFromNoHiddenLayerShrinks | src/nn/nn.c:248-262 | From L = 0 with I = 3, H = 1, O = 3, the grown network has 10 weights against 12 old ones, and the output block changes size. |
| Preservation.BypassGrownShape | src/nn/nn.c:229-284 | A unit-bypass growth keeps the old hidden tags and weights in front, adds H passthrough tags and a block whose run j is zero except 1 at fan-in j, and shifts the old output tags by H and the output weights by (H+1)H. |
| Preservation.SumFrame | src/nn/nn.c:354-359 | A neuron sum depends only on its weight run and its value window. |
| Preservation.BypassSum | src/nn/nn.c:354-359 | Under the identity laws, a run that is zero except 1 at fan-in j sums to value j of its window. |
| Preservation.NeuronValueFrame | src/nn/nn.c:352-361 | Two neurons with the same tag, bias and fan-in, equal runs and equal windows output the same value. |
| Preservation.HiddenGeometryKept | src/nn/nn.c:247-254 | One layer deeper, an old hidden neuron keeps its run, fan-in and input window. |
| Preservation.HiddenNeuronKept | src/nn/nn.c:247-254 | An old hidden neuron of the grown network computes what it computed before, over any values. |
| Preservation.BypassNeuron | src/nn/nn.c:277-284 | A passthrough neuron whose run is zero except 1 at fan-in j outputs value j of its window. |
| Preservation.NewNeuronValue | src/nn/nn.c:267-284 | New neuron j outputs value j of the old last hidden layer (of the inputs, without one). |
| Preservation.OutputFrame | src/nn/nn.c:256-259 | A moved output neuron has the old tag and bias, and its run holds the old run's weights (H+1)H slots further on. |
| Preservation.OutputNeuronValue | src/nn/nn.c:371-388 | A moved output neuron outputs the old neuron's value once both sum alike. |
| Preservation.MovedOutputValue | src/nn/nn.c:256-259 | The moved copy u + H of an old output neuron u, over values whose new layer holds the old last layer, outputs the old neuron's value over the old values. |
| Preservation.OutputNeuronAgrees | src/nn/nn.c:256-259 | A moved output neuron, reading a new layer that holds the old last layer's values, outputs what the old output neuron did. |
| Preservation.TracesMatch | src/nn/nn.c:330-394 | Given those agreements, two forward traces match slot by slot: inputs and old hidden values in place, the new layer copying the old last layer, and the outputs shifted by H. |
| Preservation.TracesAgree | src/nn/nn.c:330-394 | The same comparison as three slice equalities of the two traces. |
| Preservation.GrownNeuronFns | src/nn/nn.c:221-287 | A unit-bypass growth of a network with bias -1 has neuron functions that agree with the old ones in all three ways. |
| Preservation.GrowthPreservesOutputs | src/nn/nn.c:221-287 | For every input vector, the grown network's forward pass holds the old input and hidden values, then a copy of the old last hidden layer, then exactly the old output values. |

## Left out

- Activation arithmetic (`nn_sigmoid`, `nn_fast_sigmoid`, `nn_relu` and `nn_activate`, src/nn/nn.c:9-59) and the float sums of the forward pass. These are floating point. The multiply, add and per-tag activation are parameters of the forward pass, applied in the source's order. `Evaluate.ZeroAnnihilates` holds for IEEE floats only on finite values.
- `nn_rand` and `nn_ffnet_randomize` (src/nn/nn.c:34-41, 321-328) are left out because they draw on the global `rand()`.
- `nn_ffnet_set_pointers`, `calloc`/`malloc`/`free`, `nn_ffnet_destroy` and the `assert` aborts are left out. They are memory plumbing. The network is a value of three separate sequences, and the asserted preconditions become `requires` clauses.
- Network.Copy: "the copy lives in fresh storage, so writing to it leaves the original unchanged" holds because networks are values. It is not stated as a contract.
- Growth.AddHiddenLayer: requires `Growth.Growable`, that is at least one hidden layer, or none with H = I. From L = 0 with H = I the source is correct: the prefix copy is empty, the tail copy moves the whole output block, whose runs already have H + 1 slots, and the `new_layer == 0` branch (src/nn/nn.c:270-271) puts the block at slot 0. That case is modelled. From L = 0 with H < I the old output runs of I + 1 slots are reused as runs of H + 1 slots, and `nnew_weights` (src/nn/nn.c:262) can underflow (`Growth.GrowthFromNoHiddenLayerShrinks`). With H > I the prefix copy length `nweights - O(H+1)` underflows `size_t` (`Growth.GrowthFromNoHiddenLayerUnderflows`), which is undefined behaviour. Both are outside the model.
- Growth.AddHiddenLayerAsWritten: requires `Growth.Growable`, for the same reason.
- Preservation.GrowthPreservesOutputs: stated for the unit bypass over the layout's block (`Growth.AddHiddenLayer` with weight 1) and an old bias of -1. For another bias the grown network differs, because growth resets the bias. The as-written growth writes the same block when at most one old hidden layer exists or H = 1 (`Growth.NewBlockAsWritten`), so the theorem covers the source there.
- Preservation.IdentityLaws: IEEE floats meet these laws only for finite values. `0 * x` is NaN for infinite or NaN `x`, and `-0.0 + 0.0` is `+0.0`.
- Activation tags: the source stores a tag as a `char`, and `nn_activate` aborts on any value other than the four named tags (src/nn/nn.c:54-55). The model's `Activation` datatype has exactly those four, so the abort cannot arise.
- Growth.Migrate: the source destroys the old network. Values make that unobservable.
- Integer widths: the `size_t` layout arithmetic and the `int` counters of the setters' loops are unbounded naturals here. Wrap-around for huge topologies is not modelled.
- Connectivity tests a weight with `!= 0.0f`. Here that is a comparison of reals, which has no negative zero or NaN.
- `example/drawing.c` is a GTK/cairo user interface and is not part of this model.

## Findings

| source | as written | input that shows it | evidently intended | confidence | as-written member | corrected member |
|---|---|---|---|---|---|---|
| src/nn/nn.c:430-434 | `get_weight_to_neuron` and `neuron_is_connected` treat a neuron as first-hidden-layer when id - I < H, even when L = 0 | I = 2, H = 1, O = 3, L = 0, neuron 4: offset 6 is its bias slot and fan-in is 1 (`Introspect.NoHiddenLayerMisaddresses`). I = 1, H = 2, O = 3, L = 0, neuron 3: the probe reads slot 6 of a 6-weight segment, which is the first output value of the same allocation (`Introspect.NoHiddenLayerReadsPastWeights`) | with L = 0 every non-input neuron is an output with input stride I + 1 and fan-in I | not executed | Introspect.NeuronIsConnectedAsWritten | Introspect.IsConnected |
| src/nn/nn.c:78 | `weight_at_hidden_layer` strides (H + 1) * layer past the input block | growing I = 1, H = 2, O = 1 from L = 2: the pointer is 7, not 10, and the first bypass write hits an old weight at slot 8 (`Growth.StrideBugOverwritesOldWeight`) | (H + 1) * H * layer, one hidden-to-hidden block per layer | not executed | Growth.AddHiddenLayerAsWritten | Growth.AddHiddenLayer |
