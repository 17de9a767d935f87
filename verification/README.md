# Verified models of the cubek kernels

A Dafny model of the index arithmetic, the launch geometry and the numerical algorithms of the cubek kernels, with proofs
of what they compute. `dafny verify dfyconfig.toml` checks all of it.

**Fast Fourier transforms.** Five code paths must compute one discrete Fourier transform: the barrier-synchronised
in-place butterflies of a cube, the sequential twin with a running twiddle and a Gold–Rader bit reversal, the four-step
factorisation for windows larger than shared memory, the packed-real pipelines for large real transforms, and the recursive
host reference. Each is a method over mutable buffers, proved equal to `Dft`, the defining sum, for every power-of-two
length. A stage between two barriers is proved under every interleaving of the units' loads and stores of single floats. On top of the
sum stand orthogonality, inversion, Hermitian symmetry and the factorisation, and from them: inverse after forward is the
identity on real signals, and forward after inverse is the identity exactly on spectra that are real at DC and Nyquist. Every
launch is proved over whole batched tensors, read with any strides that stay in bounds and written with any that keep the
elements apart, each pass over all windows before the next, on the scratch tensor the windows share. The host reference walks the windows in the opposite order and is proved to fill the same tensor.

**Strided layouts.** A small theory of mixed-radix maps counts how often a position is hit. It decides `is_dense` in both
directions, shows that this is exactly the test that lets a sum run over the buffer in storage order, gives `split` its
injectivity, and shows that the windows of a batched transform tile the tensor, which is why their cubes may run in any order.

**Reductions.** `shared_sum` adds exactly the sum of its tensor, flat or strided, in any order of its atomic adds. The cube spread reaches its
first two limits with the fewest halvings; when it ends and when its third extent fits are characterised. The three inferred
reduce blueprints are joined with the readers that obey them: every element of a reduction that has a worker is taken exactly
once. When every reduction has one, when no unit reads outside the work, and when a cube is the largest whose accumulators fit, is
characterised.

**Staging windows.** `Compaction` picks a box that holds every offset a gathered tile reaches, and a read of the stage through the map it returns is
the read of the source. On an axis that reduces to whole numbers no smaller evenly spaced box would do; on a rational axis exactly
when one would is characterised.

**Quantization.** Bit-field packing in both directions, the agreement of the two sign decodings, the election of one scale
writer per block, and the two kernels over whole launches: a tensor comes back within half a step of its own block's scale.

**Random numbers and interpolation.** The blocked launch of the generator stores every vector exactly once, for every tensor
size; the interleaved one at most once, and exactly when it misses none is characterised. The gather windows of nearest backward are the fibres of nearest forward, so
backward is its adjoint and conserves the gradient.

Conventions. Reals stand for floats and arithmetic is exact. A twiddle cos t + i sin t is a power of a point `u`, one n-th of
a turn: `IsRoot(u, e)` says that `u` has norm one and that its 2^(e-1)-th power is minus one. Theorems quantify over every
such `u`. A `View` is a window of a buffer: base, stride and length. Units and cubes that may run in any order are taken from
a set by an arbitrary choice. `requires` clauses repeat the assertions of the entry points.

## Model

| member | source | states |
|---|---|---|
| Fourier.Butterfly | crates/cubek-fft/src/fft/fft_parallel.rs:56-67 | one radix-2 butterfly on the transforms of the even and odd samples gives bins k and k + m of the double-length transform |
| Fourier.HalfAngle | crates/cubek-fft/src/fft/fft_parallel.rs:52-54 | the root of each further power-of-two length is the half-angle point of the previous one, given two real square roots |
| Fourier.Orthogonality | crates/cubek-fft/src/fft/irfft.rs:209-214 | the powers of a root add up to N at multiples of N and to zero elsewhere: why 1/N is the right scale |
| Fourier.Inversion | crates/cubek-fft/src/fft/cfft.rs:85-87 | the two unnormalised directions in sequence scale every sample by exactly N |
| Fourier.Hermitian | crates/cubek-fft/src/fft/rfft.rs:208-214 | the spectrum of a real signal is conjugate symmetric, so the stored half determines it |
| BitReversal.BitReverse | crates/cubek-fft/src/fft/fft_parallel.rs:15-24 | the shifting loop computes the bit reversal |
| BitReversal.BitRevInvolution | crates/cubek-fft/src/fft/fft_parallel.rs:15-24 | reversing the bits twice returns the index, so reversal permutes a window |
| UnitSchedule.Turn | crates/cubek-fft/src/fft/fft_parallel.rs:45-70 | one turn of a unit-strided loop handles exactly one item, which no unit had handled |
| ButterflyStages.CellsOfOwner | crates/cubek-fft/src/fft/fft_parallel.rs:47-50 | the two cells of a butterfly belong to it and to no other |
| ButterflyStages.OwnerOfCell | crates/cubek-fft/src/fft/fft_parallel.rs:47-50 | every cell of the window is a cell of its owner: a stage pairs up the whole window |
| ButterflyStages.StageInvariant | crates/cubek-fft/src/fft/fft_parallel.rs:40-73 | after s stages each block of 2^s cells holds the transform of one decimated subsequence |
| ButterflyStages.StagesComputeDft | crates/cubek-fft/src/fft/fft_parallel.rs:28-74 | all stages on a bit-reversed window leave the transform in natural order |
| FftParallel.ButterflyIndices | crates/cubek-fft/src/fft/fft_parallel.rs:47-50 | the kernel's i0 and i1 are the butterfly's two cells, inside the window |
| FftParallel.LoadedFresh | crates/cubek-fft/src/fft/fft_parallel.rs:56-59 | whatever floats the other units have stored since the barrier, each load reads its float as it was at the barrier |
| FftParallel.CombinedIsStage | crates/cubek-fft/src/fft/fft_parallel.rs:52-67 | what a unit computes from its four floats is the stage's value for the float it stores |
| FftParallel.StoreKeeps | crates/cubek-fft/src/fft/fft_parallel.rs:64-67 | one store of one float settles that float and disturbs no other |
| FftParallel.StageEnd | crates/cubek-fft/src/fft/fft_parallel.rs:71-72 | when every unit waits at the barrier the window is the stage's result |
| FftParallel.ButterflyStage | crates/cubek-fft/src/fft/fft_parallel.rs:41-72 | one stage gives the same window under every interleaving of the units' eight single-float accesses per butterfly |
| FftParallel.FftButterflyParallel | crates/cubek-fft/src/fft/fft_parallel.rs:28-74 | the in-place kernel performs all the stages, for every unit count |
| TensorViews.LoadBitReversed | crates/cubek-fft/src/fft/cfft.rs:234-240 | the load loop puts sample i at the bit-reversed place, for every unit count |
| TensorViews.StoreView | crates/cubek-fft/src/fft/cfft.rs:252-257 | the store loop writes value k to cell k of the window and touches no other cell |
| TensorViews.StoreReal | crates/cubek-fft/src/fft/irfft.rs:210-214 | the same for a real output |
| SharedMemoryKernels.TransformShared | crates/cubek-fft/src/fft/cfft.rs:231-250 | load, barrier and stages leave the transform of the samples in shared memory |
| SharedMemoryKernels.CfftSharedKernel | crates/cubek-fft/src/fft/cfft.rs:207-261 | one window is transformed, also when input and output are the same buffers, and no other cell changes |
| SharedMemoryKernels.ForwardIsSum | crates/cubek-fft/src/fft/fft_inner.rs:14-22 | bin k of the forward transform is the sum of the samples, sample n turned clockwise by kn steps of the angle |
| SharedMemoryKernels.RfftIsSum | crates/cubek-fft/src/fft/rfft.rs:188-200 | bin k of the real forward transform is that sum over the samples below the signal length alone |
| SharedMemoryKernels.RfftKernel | crates/cubek-fft/src/fft/rfft.rs:163-216 | bins 0 to N/2 of the transform of the zero-extended signal |
| SharedMemoryKernels.IrfftKernel | crates/cubek-fft/src/fft/irfft.rs:154-216 | the real part of the scaled inverse transform of the Hermitian extension of the truncated bins |
| SharedMemoryKernels.ExtendedSpectrum | crates/cubek-fft/src/fft/irfft.rs:177-197 | extending the stored half of a real signal's spectrum by conjugation restores its whole spectrum |
| SharedMemoryKernels.TruncatedIsZeroed | crates/cubek-fft/src/fft/irfft.rs:177-197 | a truncated spectrum gives the samples of the same spectrum stored in full with zeros |
| SharedMemoryKernels.IrfftUndoesRfft | crates/cubek-fft/src/fft/irfft.rs:177-214 | inverse after forward is the identity on every real power-of-two window |
| FourStep.FactorsAreBalanced | crates/cubek-fft/src/fft/cfft.rs:59-80 | the split succeeds exactly when half the exponent, rounded up, fits the cap; its factors then multiply to N, are within the cap and at most a factor two apart |
| FourStep.RowsOfColumns | crates/cubek-fft/src/fft/cfft.rs:265-271 | column transforms, twiddles and row transforms compose to the transform of the whole window, for every N1 and N2 |
| FourStep.Radix1Kernel | crates/cubek-fft/src/fft/cfft.rs:379-450 | a cube of the first pass transforms and turns its own column and touches no other |
| FourStep.Radix2Kernel | crates/cubek-fft/src/fft/cfft.rs:456-509 | a cube of the second pass transforms its own row in place and touches no other |
| FourStep.ColumnPass | crates/cubek-fft/src/fft/cfft.rs:297-323 | the cubes of the first launch, over all windows and columns in any order, leave every column of every window transformed and turned |
| FourStep.RowPass | crates/cubek-fft/src/fft/cfft.rs:325-348 | the cubes of the second launch, over all windows and rows in any order and in place, transform every row of every window |
| FourStep.TransposedBin | crates/cubek-fft/src/fft/cfft.rs:540-543 | the transpose reads bin k where the row pass left it |
| FourStep.TransposePass | crates/cubek-fft/src/fft/cfft.rs:517-547 | the third launch, one thread per element in any order, each reading the scratch tensor when it runs, puts every window's transform into natural order and touches no cell outside the output |
| FourStep.CfftFourStep | crates/cubek-fft/src/fft/cfft.rs:272-372 | the three launches on one scratch tensor transform every window of the batch, also when input and output are the same buffers |
| PackedReal.PostComputesRfft | crates/cubek-fft/src/fft/rfft_large.rs:260-363 | pack, half-length transform and post give bins 0 to M of the transform of the zero-extended signal |
| PackedReal.ImaginaryDcAndNyquistIgnored | crates/cubek-fft/src/fft/irfft.rs:177-214 | the direct inverse does not depend on the imaginary parts of DC and Nyquist |
| PackedReal.SymmetricGivesReal | crates/cubek-fft/src/fft/irfft.rs:177-214 | the inverse of the symmetric extension is real, so dropping imaginary parts loses nothing |
| PackedReal.PackedInverse | crates/cubek-fft/src/fft/rfft_large.rs:377-453 | the packed inverse holds the even and odd samples of the direct inverse as real and imaginary parts |
| PackedReal.UnpackComputesIrfft | crates/cubek-fft/src/fft/rfft_large.rs:377-478 | pre, half-length inverse and unpack equal the direct inverse for every half-spectrum and every truncation |
| PackedReal.PreUndoesPost | crates/cubek-fft/src/fft/rfft_large.rs:365-453 | pre inverts post on every complex packed array |
| PackedReal.RfftOfIrfft | crates/cubek-fft/src/fft/irfft.rs:154-216 | forward after inverse returns each stored bin, DC and Nyquist without their imaginary parts, and zero past the truncation |
| PackedReal.RfftUndoesIrfftIff | crates/cubek-fft/src/fft/irfft.rs:154-216 | forward after inverse is the identity exactly on spectra that are real at DC and Nyquist |
| RealTransforms.RfftShared | crates/cubek-fft/src/fft/rfft.rs:136-216 | one cube per window, in any order, leaves every window's bins |
| RealTransforms.IrfftShared | crates/cubek-fft/src/fft/irfft.rs:127-216 | one cube per window, in any order, leaves every window's samples |
| RealTransforms.PipelineComputesRffts | crates/cubek-fft/src/fft/rfft_large.rs:260-363 | on every window, packing, the half-length transform and post give the direct kernel's bins |
| RealTransforms.RfftLarge | crates/cubek-fft/src/fft/rfft_large.rs:53-146 | the packed forward pipeline, each kernel over all windows, computes what the direct kernel does; it fails exactly with its inner transform |
| RealTransforms.PipelineComputesIrffts | crates/cubek-fft/src/fft/rfft_large.rs:377-478 | on every window, pre, the half-length inverse and unpack give the direct kernel's samples |
| RealTransforms.IrfftLarge | crates/cubek-fft/src/fft/rfft_large.rs:151-254 | the packed inverse pipeline, each kernel over all windows, computes what the direct kernel does; it fails exactly with its inner transform |
| RealTransforms.RfftLaunch | crates/cubek-fft/src/fft/rfft.rs:84-160 | the same bins in every window whichever path shared memory selects, and when the launch fails |
| RealTransforms.IrfftLaunch | crates/cubek-fft/src/fft/irfft.rs:77-151 | the same samples in every window whichever path shared memory selects, and when the launch fails |
| RealTransforms.LaunchesUndoEachOther | crates/cubek-fft/src/fft/irfft.rs:77-151 | launched one after the other on any batch, whichever paths they take, inverse after forward returns every sample of the tensor |
| FftInner.Swap | crates/cubek-fft/src/fft/fft_inner.rs:66-70 | two cells exchanged, the others kept |
| FftInner.NextReversed | crates/cubek-fft/src/fft/fft_inner.rs:55-60 | the inner loop steps the counter from the reversal of i to the reversal of i + 1 |
| FftInner.BitReversePermutation | crates/cubek-fft/src/fft/fft_inner.rs:44-62 | the guarded swaps exchange each pair once and leave the bit-reversed window |
| FftInner.RunningTwiddle | crates/cubek-fft/src/fft/fft_inner.rs:94-116 | the running product is the j-th power of the stage's base twiddle |
| FftInner.FftButterflyStages | crates/cubek-fft/src/fft/fft_inner.rs:75-126 | the sequential loops perform the same stages as the parallel kernel |
| FftInner.FftInnerCompute | crates/cubek-fft/src/fft/fft_inner.rs:27-37 | the in-place sequential transform computes the transform, in both directions |
| CpuReference.FftRecursive | crates/cubek-fft/src/eval/cpu_reference.rs:229-246 | the recursive reference computes the transform, in both directions |
| CpuReference.RfftWindow | crates/cubek-fft/src/eval/cpu_reference.rs:337-344 | the reference's bins of one lane are the kernel's bins of that window |
| HostOrder.GetCoords | crates/cubek-fft/src/eval/cpu_reference.rs:371-382 | peeling a lane from the last dimension gives the coordinates of that window of the tensor read backwards |
| HostOrder.HostInBounds | crates/cubek-fft/src/eval/cpu_reference.rs:326 | the tensor read backwards has as many windows, of the same length, and stays in bounds |
| HostOrder.HostFits | crates/cubek-fft/src/eval/cpu_reference.rs:326 | nor do its elements overlap if the tensor's do not |
| HostOrder.LaneOf | crates/cubek-fft/src/eval/cpu_reference.rs:371-382 | each window of the kernels is one lane of the host, the same lane in every tensor of the batch |
| CpuReference.HostComputesRffts | crates/cubek-fft/src/eval/cpu_reference.rs:311-369 | bins right in the host's order of windows are right in the kernels' |
| CpuReference.HostComputesIrffts | crates/cubek-fft/src/eval/cpu_reference.rs:249-306 | samples right in the host's order of windows are right in the kernels' |
| CpuReference.RfftRef | crates/cubek-fft/src/eval/cpu_reference.rs:311-369 | the reference fills a row-major tensor with the same bins, window by window, as the launch |
| CpuReference.MirrorSpectrum | crates/cubek-fft/src/eval/cpu_reference.rs:277-288 | the reference's mirrored array is the Hermitian extension of the stored bins |
| CpuReference.IrfftWindow | crates/cubek-fft/src/eval/cpu_reference.rs:275-297 | the reference's samples of one lane are the kernel's samples of that window |
| CpuReference.IrfftRef | crates/cubek-fft/src/eval/cpu_reference.rs:249-306 | the reference fills a row-major tensor with the same samples, window by window, as the launch |
| CpuReference.RfftAgrees | crates/cubek-fft/src/eval/cpu_reference.rs:22-157 | the launch and the reference, run on the same tensor, give the same bins in every window, whichever path the launch takes |
| CpuReference.IrfftAgrees | crates/cubek-fft/src/eval/cpu_reference.rs:22-157 | and the same samples |
| MixedRadix.ExactlyOnceIffBijective | crates/cubek-reduce/src/routines/shared_sum.rs:102-104 | hitting every position once is being a bijection onto the buffer |
| MixedRadix.RowMajorExactlyOnce | crates/cubek-tile/src/layout/build.rs:119-141 | strides that step over everything finer visit every position once |
| DenseViews.SortingKeepsHits | crates/cubek-reduce/src/routines/shared_sum.rs:150-155 | filtering out unit extents and sorting by stride changes no position's count |
| DenseViews.ChainIffTiles | crates/cubek-reduce/src/routines/shared_sum.rs:157-164 | on sorted dimensions, each stride being the product so far is exactly visiting each position once |
| DenseViews.IsDense | crates/cubek-reduce/src/routines/shared_sum.rs:149-165 | true exactly when the strided map, empty dimensions read as single ones, is a bijection onto the elements, in any dimension order |
| DenseViews.EmptyIsBijective | crates/cubek-reduce/src/routines/shared_sum.rs:149-165 | a tensor with an empty dimension has no element to miss, so accepting it is sound |
| DenseSums.SumIsWeighted | crates/cubek-reduce/src/routines/shared_sum.rs:102-111 | adding a strided view in coordinate order counts each cell as often as the strides visit it |
| DenseSums.SumsAgreeIff | crates/cubek-reduce/src/routines/shared_sum.rs:102-111 | adding the buffer in storage order is adding the view, for every content, exactly when the strides visit each cell once |
| AxisSplit.Split | crates/cubek-tile/src/layout/build.rs:127-141 | refuses exactly no extents or an empty one; otherwise the coefficients form a bijective system |
| BatchLayout.New | crates/cubek-fft/src/layout.rs:20-42 | the loop derives the window's offset, stride and length |
| BatchLayout.OffsetIsPosition | crates/cubek-fft/src/layout.rs:25-34 | a window's cell is the position of its coordinates under the tensor's strides |
| BatchLayout.WindowsDisjoint | crates/cubek-fft/src/layout.rs:18-52 | on a tensor whose elements do not overlap, neither do distinct windows nor the samples of one |
| BatchLayout.WindowsTile | crates/cubek-fft/src/layout.rs:18-52 | on a contiguous tensor they also cover every cell |
| BatchedTensors.WindowsApart | crates/cubek-fft/src/layout.rs:18-52 | a cell of the tensor lies in one window of the batch |
| BatchedTensors.OneWindowChanged | crates/cubek-fft/src/layout.rs:18-52 | storing inside one window's view replaces that window's contents and no other's |
| BatchedTensors.StoreElements | crates/cubek-fft/src/fft/cfft.rs:528-546 | a kernel of one thread per element of the batch, in any order, leaves exactly the given values in every window |
| BatchedTransform.CountWindows | crates/cubek-fft/src/fft/cfft.rs:152-159 | the launched count is the number of windows, none when an extent is zero |
| BatchedTransform.CfftShared | crates/cubek-fft/src/fft/cfft.rs:177-261 | one cube per window, in any order and also in place, leaves every window of the tensor transformed |
| BatchedTransform.CfftLaunch | crates/cubek-fft/src/fft/cfft.rs:142-175 | every window is transformed on whichever path; the launch fails exactly on a non-empty batch whose window has no balanced split within the cap, and then changes nothing |
| SharedSum.UnitsArePowerOfTwo | crates/cubek-reduce/src/routines/shared_sum.rs:116-124 | the unit count is the largest power of two within the device's cap and 256, and the cube's two extents multiply to it |
| SharedSum.SumRuns | crates/cubek-reduce/src/routines/shared_sum.rs:175-189 | in any order of the units' steps, each unit's cell holds the sum of its own run |
| SharedSum.RoundIsRaceFree | crates/cubek-reduce/src/routines/shared_sum.rs:220-225 | within a round no unit reads or writes a cell another unit writes |
| SharedSum.TreeRound | crates/cubek-reduce/src/routines/shared_sum.rs:218-228 | one round keeps every jump-th cell the sum of its block, in any order of the units |
| SharedSum.SumSharedMemory | crates/cubek-reduce/src/routines/shared_sum.rs:212-230 | the tree leaves the sum of all cells in the first |
| SharedSum.CubeSum | crates/cubek-reduce/src/routines/shared_sum.rs:168-205 | a cube contributes exactly the sum of the elements of its units' runs |
| SharedSum.Launch | crates/cubek-reduce/src/routines/shared_sum.rs:62-146 | for every length, cube count and order of the atomic adds, the output grows by the sum of all elements |
| TensorSums.WidestVector | crates/cubek-reduce/src/routines/shared_sum.rs:84-89 | the widest vector that divides the element count, one if none does |
| TensorSums.SumTensor | crates/cubek-reduce/src/routines/shared_sum.rs:62-146 | for every shape and strides the output grows by the sum of the view; without empty extents the buffer is read flat exactly when the strides visit each of its cells once |
| CubeCount.HalvingsAreFewest | crates/cubek-std/src/cube_count/spread.rs:26-33 | the loop halves exactly as often as the count, rounded up, needs to come within the limit |
| CubeCount.LaunchedCovers | crates/cubek-std/src/cube_count/spread.rs:3-14 | the launched total is at least the count, less than twice it, and equal exactly when the halvings lose nothing |
| CubeCount.EndsIff | crates/cubek-std/src/cube_count/spread.rs:21-34 | some number of halvings brings a count within a limit exactly when it already is or the limit is positive |
| CubeCount.SpreadEndsIff | crates/cubek-std/src/cube_count/spread.rs:36-40 | both loops end exactly when the count is within the first limit or both limits are positive |
| CubeCount.ZeroLimitsNeverEnd | crates/cubek-std/src/cube_count/spread.rs:26-33 | a count above a limit of zero never comes within it: a witness for each loop |
| CubeCount.ThirdFitsIff | crates/cubek-std/src/cube_count/spread.rs:36-40 | the third extent is within its limit exactly when the count is within the first limit or within it times the powers of two below the other two |
| CubeCount.ThirdExceedsItsLimit | crates/cubek-std/src/cube_count/spread.rs:36-40 | limits (1, 1, 4) and five cubes: the third extent becomes eight |
| CubeCount.ReduceCount | crates/cubek-std/src/cube_count/spread.rs:21-34 | when it can end, one extent is halved to its limit and the next doubled as often |
| CubeCount.CubeCountSpread | crates/cubek-std/src/cube_count/spread.rs:16-43 | whenever the loops end: the fewest halvings, the first extent within its limit, exactly when the second and the third are, and the product is the count rounded up |
| ReduceGuards.PlaneCount | crates/cubek-reduce/src/launch/utils.rs:8-29 | the planes fit the cube; there are none exactly when one does not fit or a CPU has no cores or a multiple of 2^32 units of work |
| ReduceGuards.PlaneCountIsLargest | crates/cubek-reduce/src/launch/utils.rs:8-29 | the plane count is the largest that fits the cube and is within the cores and the units of work or, without cores, is a power of two up to eight that the work fills, one in any case |
| ReduceGuards.FitsIff | crates/cubek-reduce/src/routines/cube.rs:231-246 | the quotients of the clamp decide whether a cube's accumulators fit shared memory |
| ReduceGuards.ClampFits | crates/cubek-reduce/src/routines/cube.rs:220-249 | the clamp fails exactly when one plane does not fit, and otherwise leaves at least one plane, within the request, that fits |
| ReduceGuards.ClampIsLargestIff | crates/cubek-reduce/src/routines/cube.rs:243-248 | the clamp keeps the largest fitting count exactly when the 32-bit cast does not cut the quotient below the request |
| ReduceGuards.ClampWraps | crates/cubek-reduce/src/routines/cube.rs:243-248 | four planes over 2^32 + 1 one-byte accumulators fit and are cut to one |
| ReduceGuards.SpreadIsExactIff | crates/cubek-reduce/src/routines/unit.rs:84-91 | whole cubes cover the work exactly when the work divides evenly and the spread adds no cube |
| ReduceGuards.LaunchIsExactIff | crates/cubek-reduce/src/routines/plane.rs:95-152 | in all three routines every whole vector of reductions has a worker, and the idle guard is dropped exactly when unchecked paths are allowed and no worker is surplus |
| ReduceGuards.CubeFits | crates/cubek-reduce/src/routines/cube.rs:112-152 | the cube routine reports an overflow exactly when one plane's accumulators do not fit shared memory; the accumulators of a cube it launches, one a plane where planes are wanted and of one size and one a unit otherwise, fit |
| ReduceGuards.CubeIsLargestIff | crates/cubek-reduce/src/routines/cube.rs:119-138 | no wider cube is asked for by the work, allowed by the device and fits, exactly when the 32-bit cast does not cut the quotient below what is asked for and allowed |
| ReduceGuards.CubeWithinUnitsIff | crates/cubek-reduce/src/routines/cube.rs:124-139 | the cube is within the device's units exactly when one plane is, or there is nothing to accumulate |
| ReduceGuards.CubeBeyondUnits | crates/cubek-reduce/src/routines/cube.rs:243-248 | planes of 64 on a device with cubes of 32: a cube of 64 is launched |
| ReduceGuards.PlanesOfLaunch | crates/cubek-reduce/src/routines/unit.rs:75-91 | the plane and the unit routine fill their cubes with the most planes allowed, stay within the device's units, and stop exactly when planes are unsupported or none is allowed |
| ReduceGuards.GuardsAre | crates/cubek-reduce/src/routines/cube.rs:156-190 | which idle mode and which bound checks each routine infers, from the work, the device and whether workers are surplus |
| ReduceGuards.SurplusIff | crates/cubek-reduce/src/routines/plane.rs:97-115 | a launch has surplus workers exactly when the work does not fill its cubes or the spread adds some |
| ReduceGuards.WorkersCoverIff | crates/cubek-reduce/src/routines/plane.rs:173-178 | every reduction is in some worker's share exactly when the share divides the reductions |
| ReduceGuards.ShareIsWhole | crates/cubek-reduce/src/routines/plane.rs:173-178 | a reduction is in a share exactly when its whole vector, of output in a parallel reduction and of input in a perpendicular one, is inside the reductions |
| ReduceGuards.SlotsFoundIff | crates/cubek-reduce/src/components/global/base.rs:6-20 | the first m reductions find their first slots exactly when there is one slot, or the slots lie as many whole vectors of a share apart as the workers assume, or the m end before |
| ReduceGuards.EachAtItsSlotIff | crates/cubek-reduce/src/components/global/base.rs:6-20 | all reductions in some share find their slots exactly when the runs agree as far as the shares reach |
| ReduceGuards.AllServedIff | crates/cubek-reduce/src/components/global/base.rs:6-20 | every reduction has a worker that finds its slot exactly when the share divides the reductions and the runs agree |
| ReduceGuards.WidthDropsReductions | crates/cubek-reduce/src/launch/utils.rs:143-160 | top-2 of six rows in vectors of four: one worker, and two reductions without |
| ReduceGuards.IdleIff | crates/cubek-reduce/src/components/global/base.rs:34-65 | a working unit is never idle, and the surplus ones are, exactly when the last run of reductions is whole in output vectors and no vector is made up of what the last share lacks |
| ReduceGuards.TrueRunsAreWhole | crates/cubek-reduce/src/components/global/base.rs:45-47 | that is so when the workers assume the true run and the reductions are whole runs |
| ReduceGuards.ValuesAreTaken | crates/cubek-reduce/src/components/readers/bound_checks.rs:24-85 | under every inferred blueprint no value inside the work is hidden, and a fused read is never masked |
| ReduceGuards.OverreadsIff | crates/cubek-reduce/src/routines/plane.rs:130-166 | a row is unguarded and wider than its planes exactly in the plane routine on narrower planes, unchecked, with work in whole rows and no surplus worker that a branch or a mask holds back |
| ReduceGuards.GuardsAreExactIff | crates/cubek-reduce/src/components/readers/bound_checks.rs:24-85 | under every inferred blueprint all units take values only inside the work exactly when, by conditions on the call, no outer unit of a narrow plane overreads and no surplus worker is missed |
| ReduceGuards.WrittenIsExact | crates/cubek-reduce/src/components/readers/base.rs:31-35 | where rows are whole planes, what is merged into a written result is exact even when the row overreads |
| ReduceGuards.NarrowPlanesOverread | crates/cubek-reduce/src/components/readers/base.rs:31-35 | planes of 16 in rows of 32: the last unit reads position 47 of 32 |
| ReduceGuards.NarrowOutputMissesItsSlot | crates/cubek-reduce/src/components/global/base.rs:13-16 | top-2 over vectors of 8 written as vectors of 4: the second worker starts in the first one's second slot, and a surplus one is not stopped |
| ReduceGuards.ScalarOutputMissesItsSlot | crates/cubek-reduce/src/launch/utils.rs:127-140 | top-2 over vectors of 8 written as single elements: reduction 24 starts at element 24 instead of 48 |
| ReduceGuards.EachValueOnce | crates/cubek-reduce/src/components/readers/parallel.rs:75-116 | each value of each reduction in a share is taken, and by exactly one unit whose result is written, at exactly one step |
| ReduceGuards.EachElementOnce | crates/cubek-reduce/src/components/readers/perpendicular.rs:55-100 | every element of the reduced axis, of every reduction in a share, is taken by exactly one unit whose result is written, at exactly one step; the vectors of a parallel read divide the axis |
| ReduceGuards.OnlyElementsTaken | crates/cubek-reduce/src/components/readers/parallel.rs:55-116 | where rows are whole planes and no surplus worker is missed, nothing outside the reduced axis or the shares is taken |
| ReduceGuards.AllElementsTakenIff | crates/cubek-reduce/src/components/readers/parallel.rs:57-58 | the whole axis is taken exactly when the vectors lie across it or divide it |
| ReduceGuards.DroppedIsNeverTaken | crates/cubek-reduce/src/components/readers/parallel.rs:75-116 | the values of a reduction in no share are taken by none |
| WindowCompaction.CompactionHolds | crates/cubek-tile/src/layout/compaction.rs:66-104 | every offset the tile's terms reach is the step times a stage coordinate below the extent |
| WindowCompaction.CompactionIsMinimal | crates/cubek-tile/src/layout/compaction.rs:72-104 | no evenly spaced box with fewer cells than one more than the staged field holds every offset of whole-number terms |
| WindowCompaction.CompactedAxisIsMinimal | crates/cubek-tile/src/layout/compaction.rs:66-104 | on an axis that reduces to whole numbers, no evenly spaced box with fewer cells than the compacted extent holds every offset |
| WindowCompaction.RationalBoxIsMinimalIff | crates/cubek-tile/src/layout/compaction.rs:54-63 | on a rational axis the compacted extent is the least exactly when the divisor is dynamic, does not divide the moving step, or equals it |
| WindowCompaction.StillTapOverstages | crates/cubek-tile/src/layout/compaction.rs:54-63 | eight outputs four apart and a single tap over a divisor of two: fifteen cells are staged where eight hold every read |
| WindowCompaction.ResizeIsTight | crates/cubek-interpolate/src/kernel/forward/coordinate.rs:34-43 | the axes of a resize, whose tap coefficient is the divisor, are never staged larger than needed |
| WindowCompaction.PhaseFits | crates/cubek-tile/src/layout/compaction.rs:54-63 | a rational axis's box holds the window at every phase and for every divisor above the least |
| WindowCompaction.StagedReadIsSourceRead | crates/cubek-tile/src/layout/compaction.rs:41-107 | the map that is returned, its own coefficients and divisor put in, addresses a cell of the stage that holds the source cell: for every position, launchable coefficient, divisor and offset |
| WindowCompaction.Compact | crates/cubek-tile/src/layout/compaction.rs:31-107 | the loop compacts every physical axis; each map it returns is legal, covers the same tile, and reads what the source reads |
| QuantPacking.PackQ | crates/cubek-quant/src/quantize.rs:99-136 | mask, shift and combine build the word of the values' two's-complement codes |
| QuantPacking.FieldOfWord | crates/cubek-quant/src/quantize.rs:120-126 | field p of the packed word is the code of value p |
| QuantPacking.UnpackQ | crates/cubek-quant/src/dequantize.rs:104-165 | shift, mask and branchless decoding read every field as a signed value |
| QuantPacking.SignedCode | crates/cubek-quant/src/dequantize.rs:156-160 | decoding a value's code returns the value exactly when the field can represent it |
| QuantPacking.UnpackPack | crates/cubek-quant/src/quantize.rs:99-136 | packing then unpacking returns the values exactly when each fits its field |
| QuantPacking.PackUnpack | crates/cubek-quant/src/dequantize.rs:104-138 | unpacking then packing returns every word |
| QuantPacking.HostDecodesTheSame | crates/cubek-test-utils/src/stubs/quant.rs:235-245 | the host's mask extension and the device's branchless decoding agree on every field |
| QuantPacking.PackQValues | crates/cubek-test-utils/src/stubs/quant.rs:147-163 | whole chunks become words, a ragged tail is refused |
| QuantPacking.DecodePackedU32 | crates/cubek-test-utils/src/stubs/quant.rs:208-221 | every field of every word is decoded in order |
| QuantPacking.HostRoundTrip | crates/cubek-test-utils/src/stubs/quant.rs:147-221 | decoding what was packed returns the values exactly when each fits its field |
| BlockScales.ToSourcePos | crates/cubek-quant/src/layout/scales.rs:144-160 | the peeling loop computes the vector of scales that holds the slot of the element's block |
| BlockScales.BlockOfCoordinates | crates/cubek-quant/src/layout/scales.rs:144-160 | an element's block is, in every dimension, its coordinate over the block's extent |
| BlockScales.ShapeDivmodQuant | crates/cubek-quant/src/layout/scales.rs:244-252 | the logical shape has the stored elements times the packing width, which divides its last extent |
| BlockScales.IsBlockStart | crates/cubek-quant/src/layout/scales.rs:179-194 | true exactly at elements that are first in their block in every dimension |
| BlockScales.FirstIsStart | crates/cubek-quant/src/layout/scales.rs:176-194 | each block of the grid has a first element, inside the tensor, and it counts as a start |
| BlockScales.StartIsFirst | crates/cubek-quant/src/layout/scales.rs:176-194 | no other element of a block counts as a start |
| BlockScales.LanesShareBlock | crates/cubek-quant/src/quantize.rs:240-251 | when the packing width divides the innermost block and extent, all lanes of a unit lie in one block |
| BlockScales.ExactlyOneWriter | crates/cubek-quant/src/quantize.rs:171-174 | over the whole launch exactly one unit writes each scale slot |
| BlockScales.ScaleIndex | crates/cubek-test-utils/src/stubs/quant.rs:278-297 | the two host loops number the element's block in row-major order |
| BlockScales.SlotIsHostIndex | crates/cubek-quant/src/layout/scales.rs:144-160 | on row-major scales the kernel's slot is the host's index |
| QuantKernels.QuantizeLanes | crates/cubek-quant/src/quantize.rs:79-88 | the one scale a unit reads is the right one for each of its lanes |
| QuantKernels.QuantizePacked | crates/cubek-quant/src/quantize.rs:223-275 | for any order of the units and all scales, every element is stored as its code under its own block's scale, and every block's scale reaches its slot |
| QuantKernels.FieldEncodes | crates/cubek-quant/src/scale/effective.rs:31-54 | each element's field is the code of its value divided by its block's scale, or by the product of the global scale and it, rounded and clamped |
| QuantKernels.WordIsReconstructed | crates/cubek-quant/src/dequantize.rs:89-94 | the scale position computed for a unit's word serves each element of the word |
| QuantKernels.DequantizePacked | crates/cubek-quant/src/dequantize.rs:168-198 | for any order of the units and any words per unit, each element is its field times its own block's scale, or times the product of the global scale and it |
| QuantKernels.RoundTripError | crates/cubek-quant/src/quantize.rs:34-49 | each element comes back within half a step of its factor, the block's scale or the product of the global scale and it, or at the end of the range it lies beyond, and as zero under a zero factor |
| QuantKernels.RoundTrip | crates/cubek-quant/src/dequantize.rs:168-198 | so it is for every element after both launches, the units of each in any order |
| PrngLayout.SlotHasOneOwner | crates/cubek-random/src/base.rs:165-167 | in both layouts a slot names its unit and its place, so no two stores share a position |
| PrngLayout.PositionIsSlot | crates/cubek-random/src/base.rs:180-198 | in both layouts every position is a slot of some unit |
| PrngLayout.InterleavedCovers | crates/cubek-random/src/blueprint.rs:80-90 | the interleaved launch has units for every vector, however the spread rounds |
| PrngLayout.BlockedGeometry | crates/cubek-random/src/blueprint.rs:112-137 | the run is the shortest of whole draws for which no more units are needed than the budget has and than have a least run each, and no shorter than that least run on a tensor as long; the launch covers the tensor, in full cubes within the device's units, and its last cube and last unit are needed |
| PrngLayout.InsideIsInBounds | crates/cubek-random/src/base.rs:200-208 | the blocked layout stores a draw unchecked exactly when the whole draw is in the run and in bounds |
| PrngLayout.PrngKernel | crates/cubek-random/src/base.rs:168-214 | in any order of the units, each vector is stored once, by its owner, if it is among the owner's whole draws, and otherwise never |
| PrngLayout.LaunchBlocked | crates/cubek-random/src/blueprint.rs:96-137 | geometry and kernel together store every vector exactly once, for every tensor size, device and draw width |
| PrngLayout.InterleavedStoresAllIff | crates/cubek-random/src/base.rs:187-189 | the interleaved layout stores every vector exactly when a draw divides the run or the tensor ends within the first cube's whole draws |
| PrngLayout.LaunchInterleaved | crates/cubek-random/src/blueprint.rs:69-94 | geometry, spread and kernel together store each vector at most once, and all of them exactly when a draw divides the run or the tensor ends within the first cube's whole draws; the cubes are fewer than twice any number that has units for every value |
| PrngLayout.PairedDrawsAtFullLine | crates/cubek-random/src/base.rs:187-189 | with lines of 128 values and paired draws nothing is stored |
| NearestInterpolation.LowestTerms | crates/cubek-interpolate/src/kernel/forward/coordinate.rs:12-26 | reducing the coordinate to lowest terms only cancels a common factor |
| NearestInterpolation.ForwardIs | crates/cubek-interpolate/src/definition/base.rs:47-61 | which input index an output index reads, as inequalities on integers, in both modes |
| NearestInterpolation.WindowIsFibre | crates/cubek-interpolate/src/kernel/backward.rs:119-151 | the gather window of an input index is exactly the set of output indices that read it |
| NearestInterpolation.WindowsTelescope | crates/cubek-interpolate/src/kernel/backward.rs:119-151 | the windows start at zero, ascend and end at the gradient's extent |
| NearestBackward.SourceInRange | crates/cubek-interpolate/src/definition/base.rs:47-61 | every output index reads an index of the input, in both modes |
| NearestBackward.GatherPixel | crates/cubek-interpolate/src/kernel/backward.rs:95-114 | the divisions and the nested loops gather, for each lane of the unit's vector, the sum over its pixel's window in its own channel |
| NearestBackward.PixelOfIndex | crates/cubek-interpolate/src/kernel/backward.rs:95-97 | the divisions recover every batch, row, column and channel from its number |
| NearestBackward.IndexIsPosition | crates/cubek-interpolate/src/kernel/backward.rs:95-97 | a pixel's number is its position in the row-major box of the input gradient |
| NearestBackward.WantedIsPulled | crates/cubek-interpolate/src/kernel/backward.rs:99-114 | what the windows gather for a pixel is the sum of the gradient's cells, at their positions under any strides, over the output indices whose forward source is that pixel |
| NearestBackward.LanesShareImage | crates/cubek-interpolate/src/kernel/backward.rs:95-97 | the lanes of a vector are consecutive channels of one pixel |
| NearestBackward.Backward | crates/cubek-interpolate/src/kernel/backward.rs:75-117 | in any order of the units every channel of every pixel of every image ends up holding the sum of the gradient's elements whose output index reads that pixel, under any strides, and no other cell changes |
| NearestBackward.PixelStored | crates/cubek-interpolate/src/kernel/backward.rs:95-116 | the pixels hold that once every vector holds its gathered sums |
| NearestBackward.BackwardIsAdjoint | crates/cubek-interpolate/src/kernel/backward.rs:75-117 | pairing an image with the gathered gradient is pairing its forward interpolation with the gradient |
| NearestBackward.GradientIsConserved | crates/cubek-interpolate/src/kernel/backward.rs:75-117 | the gathered gradients add up to the whole gradient |

## Where the code and its comments differ

- `factor_four_step` (crates/cubek-fft/src/fft/cfft.rs:66-73) announces that weight is moved to the other factor when one exceeds the cap. That branch always ends in the failing assertion: `FourStep.FactorsAreBalanced` proves that only the balanced split ever succeeds.
- `cfft_launch_any_size` and the inverse pipeline (crates/cubek-fft/src/fft/rfft_large.rs:219-221) doubt that the four-step path tolerates aliasing. It does: `FourStep.CfftFourStep` holds with one buffer for both.

## Where the code falls short

Each entry names the lemma with a failing input and the one with the exact condition. The code is modelled as it is.

- `cube_count_spread` never holds the third extent against its limit: `CubeCount.ThirdExceedsItsLimit`, `CubeCount.ThirdFitsIff`. With 65535 cubes in each dimension it takes more than 65535 * 2^30 cubes.
- It does not end on a count above a limit of zero: `CubeCount.ZeroLimitsNeverEnd`, `CubeCount.SpreadEndsIff`. On machine integers the doubling overflows instead: a build that checks for it stops at crates/cubek-std/src/cube_count/spread.rs:28. No known device has a limit of zero.
- The interleaved generator rounds its draws down (crates/cubek-random/src/base.rs:187-189): `PrngLayout.PairedDrawsAtFullLine`, `PrngLayout.LaunchInterleaved`. The failing line of 128 values is unreached as far as this model can tell: line sizes come from cubecl, which is not part of it.
- `clamp_plane_count` casts a quotient to 32 bits before taking the minimum: `ReduceGuards.ClampWraps`, `ReduceGuards.ClampIsLargestIff`. It takes more than 2^32 bytes of shared memory, which no known device has.
- It also raises no planes to one, so a cube can be wider than the device allows: `ReduceGuards.CubeBeyondUnits`, `ReduceGuards.CubeWithinUnitsIff`. It takes planes wider than the device's cubes.
- On a device whose planes come in several sizes, a row of the largest size steps by the smaller one the kernel runs in, and its outer units read past the work when the checks are dropped: `ReduceGuards.NarrowPlanesOverread`, `ReduceGuards.GuardsAreExactIff`. What is written is unaffected where rows are whole planes: `ReduceGuards.WrittenIsExact`. Reached by devices with several plane sizes, on unchecked paths only.
- The output width of a parallel reduction is tested against the output's elements, slots included, and not against the reductions (crates/cubek-reduce/src/launch/utils.rs:150-158). A width that does not divide the reductions leaves the last ones without a worker: `ReduceGuards.WidthDropsReductions`, `ReduceGuards.WorkersCoverIff`, `ReduceGuards.AllServedIff`. Reached by a parallel top-k whose caller lays the slots outermost, when the width does not divide the reductions.
- A reduction with several slots whose output vectors are not as wide as its workers' shares starts in the wrong slots and can let a surplus worker through: `ReduceGuards.NarrowOutputMissesItsSlot`, `ReduceGuards.ScalarOutputMissesItsSlot`, `ReduceGuards.SlotsFoundIff`, `ReduceGuards.IdleIff`. Reached when the index output of a top-k narrows the vectors (crates/cubek-reduce/src/launch/base.rs:137-143), and with a single output when the extent behind the reduced axis is no multiple of the input width (crates/cubek-reduce/src/launch/utils.rs:127-140).
- On a rational axis whose static divisor properly divides the moving step, compaction stages more cells than needed: `WindowCompaction.StillTapOverstages`, `WindowCompaction.RationalBoxIsMinimalIff`. Not reached by the interpolation kernels (`WindowCompaction.ResizeIsTight`); a stencil tile with a single tap over a divisor would reach it.

## Left out

- Floating point: rounding, overflow, infinities and NaN. All arithmetic on samples, scales and coordinates is on exact reals, including the divisions of `start_index`.
- Sine and cosine: a twiddle is a power of a given root. That the reals hold a root for every length is not proved; `Fourier.HalfAngle` reduces it to square roots.
- The width of `usize` and `u32`, except the casts of the reduce geometry and the 32-bit packed words.
- Device queries, tensor handles, launching, autotuning: device limits are parameters. The number of cubes a launch rounds up to is not modelled where the kernel drops the surplus at once.
- Steps inside an item: in the loops other than the butterfly stage a unit's whole turn on one item is one step, and so is a whole cube of a launch.
- FourStep.CfftFourStep: the real and the imaginary tensor of a pair have the same strides. The scratch tensor is contiguous, as `TensorHandle::new_contiguous` makes it.
- `read_checked` and `write_checked` of the transforms are modelled on indices that are in bounds, which the views' shapes guarantee.
- CpuReference.RfftRef: `HostData` is its flat data, shape and strides; its progress counter is not modelled.
- TensorSums.SumTensor: the linear view of a tensor that is not flat, cubecl's, is taken to hand out the elements in coordinate order, in vectors that divide their number.
- `DimsBuilder::build`: the order of the logical axes. `Compaction::line_extents`, `cells` and `is_dense`, and `Projection::validate`: padding and legality checks around the box.
- WindowCompaction.StagedReadIsSourceRead: a dynamic offset is covered by quantifying over all offsets; an axis map that already carries a static offset is reduced by `over` only when the stage is built, as in the source.
- CubeCount.CubeCountSpread: says nothing of the inputs on which the loops do not end; `CubeCount.SpreadEndsIff` says which these are.
- ReduceGuards.EachValueOnce: the recombination of a row's units is taken to be the first hardware plane's, with hardware planes aligned to rows; the reduce instructions and the merging of accumulators are not modelled.
- ReduceGuards.SlotsFoundIff: the output is packed, so that it has as many elements as reductions times slots, and its slots are at least an output vector apart, as the widths are chosen (crates/cubek-reduce/src/launch/utils.rs:127-160). The forced blueprints of the reduce routines are not modelled.
- Minifloat codes (E2M1, E4M3, E5M2), native storage and per-tensor scales.
- QuantKernels.QuantizePacked: the copy of the tensor's global scale is not modelled. Narrowing is an arbitrary function, so rounding up is not used. What division by a zero scale gives is a parameter.
- The generator's values: state, seeding and distributions. Only where each vector is stored is modelled.
- NearestBackward.Backward: the layout of the input gradient is any placement of its vectors that keeps them apart; `LinearLayout` is not part of this model.
- Matrix multiplication, attention and convolution kernels, their selectors and validators.
