# A verified model of WonderStewEngine's algorithms

This project models the algorithmic core of WonderStewEngine and proves what it promises, for every
input, every run and every interleaving. `dafny verify dfyconfig.toml` checks all of it.

- **Images** (`Grid`, `Orientation`, `Demosaic`, `DemosaicLaws`, `DemosaicExact`, `BlockOrientation`, `Channels`,
  `Accumulator`, `AverageLaws`, `Rounding`): the grid under every image, reorientation as the symmetry group of the
  rectangle, both demosaicing methods, the wrapping average accumulator, and the laws that relate them: averaging
  and bilinear demosaicing commute with reorientation and with channel order, Block2x2 exactly when parities and
  pattern allow it, and wrapping sums are exact exactly up to a stated bound.
- **The interleaved codec** (`Layout`, `Interleaved`): the overflow-safe layout test, the strided reader and
  writer on hosts of either byte order, and the exact condition for their round trip.
- **Staged replacement** (`Staging`, `AtomicWrite`): any number of concurrent `atomicWrite` calls as a state
  machine with an invariant over every interleaving, and the call itself under arbitrary interference.
- **The bootstrap** (`Resolver`, `Provision`): component expansion as graph reachability, the build-stamp cache
  and package provisioning over whole runs.
- **Toolchain archives and the warning ratchet** (`Archive`, `Ratchet`).
- **Matrices over the reals** (`Matrix`, `Determinant`, `Elimination`, `DeterminantLaws`, `Inverse`,
  `InverseLaws`): the product and its ring laws, elimination against the cofactor expansion, the product and
  transpose laws of the determinant, and Gauss-Jordan inversion with its rejection tolerance.

Conventions. An `Image<T>` is the value of a grid and a `Map<T>` the object whose fields change. Exceptions and
error returns are `Result` values or outcome datatypes. Unsigned wrap-around is written out as a remainder: the
channel sums by the modulus of the sum type, `size_t` by its maximum, which is a parameter. Outcomes of storage,
downloads, builds and the clock are parameters of a step, so every theorem holds for all of them. Where the code
works in loops, the model has a method with the same loops, proved equal to a specification function; the laws
are then proved about that function.

Three promises of the documentation do not match the code; the code is what is modelled, and each has its exact
condition.

- `convertChannelOrder` always exchanges channels 0 and 2 (api/wse/data/wse_ImageInterleaved.h:422-424), also
  where the note at lines 395-397 says that naming one format twice copies. `Channels.ConversionCopiesIff` says when
  it copies and `Channels.ConversionChangesRed` gives an image that it changes.
- `averageImages` of an empty list ends in the accumulator's logic error (api/wse/data/wse_ImageTransform.h:305-308),
  where the comment above it names an invalid argument.
- The stamp cache is documented to say whether cached outputs came from the current recipe (bootstrap.py:1098-1105).
  Nothing clears a source root before a build, and the stamp does not say which root it is about, so they do exactly
  while no other recipe has written into the root since it was last replaced: `Provision.CoherentExactlyWhen` is the
  condition, and `Provision.ReturnCopiesMixedOutputs`, `Provision.OverlayCopiesLeftovers` and
  `Provision.MovedRootCopiesForeign` are runs that break it.

More properties hold only under a condition, which is stated exactly and comes with an input that breaks it: exact
averages (`AverageLaws.AverageExactIff`), exact bilinear means and flat fields (`DemosaicExact.BilinearExactIff`,
`DemosaicExact.FlatFieldIff`), reorientation of Block2x2 (`BlockOrientation.BlockOrientationIff`), the codec's round
trip (`Interleaved.RoundTripIff`), and the baseline's round trip and rewrite (`Ratchet.BaselineRoundTripIff`,
`Ratchet.RewriteSafeIff`).

## Model

| member | source | states |
|---|---|---|
| `Grid.CheckedCount` | api/wse/data/wse_Map.h:112-119 | The element count is refused exactly when the product exceeds size_t; an accepted product did not wrap |
| `Grid.CountFits` | api/wse/data/wse_Map.h:114-118 | The test by division before the product decides exactly whether the product is representable |
| `Grid.FlatIndex` | api/wse/data/wse_Map.h:258-265 | In the flat vector of rows, cell (x, y) lies at index y * width + x |
| `Grid.NewMap` | api/wse/data/wse_Map.h:483-506 | A shape whose element count is not representable is refused; any other gives a grid holding the initial value everywhere |
| `Grid.Map.constructor` | api/wse/data/wse_Map.h:483-506 | A new grid has the given shape and holds the initial value in every cell |
| `Grid.Map.At` | api/wse/data/wse_Map.h:258-265 | A checked read returns the cell's value inside the shape and the range error exactly outside it |
| `Grid.Map.Put` | api/wse/data/wse_Map.h:258-265 | A write changes its own cell and no other |
| `Grid.Map.Init` | api/wse/data/wse_Map.h:451-456 | Shape and contents are replaced together; a refused shape leaves the grid as it was |
| `Orientation.OrientedExtent` | api/wse/data/wse_ImageTransform.h:100-114 | Exactly the two quarter turns exchange width and height |
| `Orientation.TargetOf` | api/wse/data/wse_ImageTransform.h:161-189 | Each branch of the switch sends a source cell to the cell its symmetry names, inside the target |
| `Orientation.OrientedCells` | api/wse/data/wse_ImageTransform.h:161-190 | Where each pixel of the result is taken from, written out for the six orientations |
| `Orientation.ApplyOrientation` | api/wse/data/wse_ImageTransform.h:138-194 | The scattering loops compute the image whose every cell is pulled back through the symmetry; empty sources and unknown orientations are refused |
| `Orientation.PlaceBijective` | api/wse/data/wse_ImageTransform.h:161-190 | Source cells and target cells correspond one to one, so each target cell is written exactly once |
| `Orientation.MovedAt` | api/wse/data/wse_ImageTransform.h:190 | Every source pixel arrives at its target cell |
| `Orientation.MovedTwice` | api/wse/data/wse_ImageTransform.h:138-194 | Two reorientations in a row equal one by the composed symmetry, for every image |
| `Orientation.MovedBack` | api/wse/data/wse_ImageTransform.h:138-194 | Every reorientation can be undone |
| `Orientation.DihedralLaws` | api/wse/data/wse_ImageTransform.h:161-190 | Quarter turns cancel, two make a half turn, flips are involutions, both flips are a half turn, a flip conjugates through a quarter turn |
| `Orientation.MovedMultiset` | api/wse/data/wse_ImageTransform.h:138-194 | The multiset of pixels is conserved |
| `Demosaic.WindowHasColor` | api/wse/data/wse_ImageDemosaic.h:246-264 | The clipped window of every pixel, corners and odd edges included, contains all three colours, so no divisor is zero |
| `Demosaic.WindowTotals` | api/wse/data/wse_ImageDemosaic.h:243-259 | The clipped double loop totals, per colour, exactly the samples of the three-by-three neighbourhood that exist, modulo 2^64 |
| `Demosaic.BilinearAt` | api/wse/data/wse_ImageDemosaic.h:243-268 | One output pixel for every channel type: the window mean of each colour as 64-bit sums and the cast to the channel make it, in the requested channel order |
| `Demosaic.DemosaicBilinear` | api/wse/data/wse_ImageDemosaic.h:239-271 | The bilinear loops write every pixel, each with its wrapped window means |
| `Demosaic.BlockSamples` | api/wse/data/wse_ImageDemosaic.h:203-220 | The block scan keeps the first sample of each colour |
| `Demosaic.FillTile` | api/wse/data/wse_ImageDemosaic.h:222-232 | A tile clipped at the right and lower edge is filled and nothing else is touched |
| `Demosaic.DemosaicBlocks` | api/wse/data/wse_ImageDemosaic.h:193-236 | Every target pixel of every size from 2x2 on, odd ones included, receives its block's colours |
| `Demosaic.Demosaic` | api/wse/data/wse_ImageDemosaic.h:165-272 | Sources under 2x2 and unknown patterns are refused; otherwise every pixel is red, green, blue exactly for the RGB order and blue, green, red for any other value, from its block for Block2x2 and from its window means for any other method |
| `Demosaic.BilinearBetween` | api/wse/data/wse_ImageDemosaic.h:250-267 | Each window mean lies between any bounds of its colour's samples in the window |
| `DemosaicLaws.ColorMoved` | api/wse/data/wse_ImageDemosaic.h:183-191 | Reorienting source and layout together keeps the colour of every site |
| `DemosaicLaws.MovedPatternUnique` | api/wse/data/wse_ImageDemosaic.h:115-125 | The pattern of the reoriented source is the only one of the four that does so |
| `DemosaicLaws.BilinearEquivariant` | api/wse/data/wse_ImageDemosaic.h:239-271 | Bilinear demosaicing, as exact means and as 64-bit sums compute it, commutes with all eight symmetries of the rectangle, for every size and pattern |
| `DemosaicLaws.DemosaicOrientation` | api/wse/data/wse_ImageTransform.h:154-192 | In particular, demosaicing a reoriented source is reorienting the demosaiced one, for the six named orientations |
| `DemosaicLaws.SiteKept` | api/wse/data/wse_ImageDemosaic.h:250-267 | Red and blue sites keep their own sample exactly, in every channel type |
| `DemosaicLaws.SitesReturned` | api/wse/data/wse_ImageDemosaic.h:129-134 | A red site returns its sample in channel 0 of RGB and channel 2 of BGR, a blue site the other way round; which sites are red is written out by pattern and parity |
| `DemosaicLaws.BilinearMonotone` | api/wse/data/wse_ImageDemosaic.h:239-271 | The window means of a brighter source are nowhere darker |
| `DemosaicLaws.BilinearNearest` | api/wse/data/wse_ImageDemosaic.h:265-267 | Each mean is the window mean rounded to nearest |
| `DemosaicLaws.BlockProvenance` | api/wse/data/wse_ImageDemosaic.h:193-236 | Block2x2 invents nothing: each channel is a source sample of that colour at most one pixel away in x and y |
| `DemosaicLaws.FlatField` | api/wse/data/wse_ImageDemosaic.h:193-271 | Blocks and exact window means return a constant colour unchanged at every pixel, for all patterns and sizes |
| `DemosaicLaws.BgrIsSwappedRgb` | api/wse/data/wse_ImageDemosaic.h:129-134 | BGR order equals RGB order followed by channel conversion |
| `Rounding.MeanExactIff` | api/wse/data/wse_ImageDemosaic.h:264-267 | A rounded mean in unsigned arithmetic is exact if and only if the sum with its rounding does not wrap |
| `DemosaicExact.ValueExactIff` | api/wse/data/wse_ImageDemosaic.h:255-267 | One bilinear value is the rounded window mean if and only if its window sum does not wrap |
| `DemosaicExact.ImageExactIff` | api/wse/data/wse_ImageDemosaic.h:239-271 | The whole bilinear image is exact if and only if no window sum of the source wraps |
| `DemosaicExact.ShapeExactIff` | api/wse/data/wse_ImageDemosaic.h:239-271 | It is exact for all sources of a shape and channel type if and only if windows full of maximal samples fit 64 bits |
| `DemosaicExact.BilinearExactIff` | api/wse/data/wse_ImageDemosaic.h:239-271 | For every shape with an inner green site, all from 4x4 on included, that is the case if and only if 5 * max + 2 < 2^64 |
| `DemosaicExact.NarrowChannelsExact` | api/wse/data/wse_ImageDemosaic.h:239-271 | Channels of up to 61 bits are exact in every size |
| `DemosaicExact.FlatFieldIff` | api/wse/data/wse_ImageDemosaic.h:193-271 | The code returns a flat field unchanged if and only if its method is Block2x2 or no window sum wraps |
| `DemosaicExact.BetweenIff` | api/wse/data/wse_ImageDemosaic.h:250-267 | Returned values stay between any bounds of their window, for all sources of a shape, if and only if windows full of maximal samples fit 64 bits |
| `DemosaicExact.MonotoneIff` | api/wse/data/wse_ImageDemosaic.h:239-271 | A brighter source is nowhere darker in what the code returns, for all sources of a shape, under the same condition and only then |
| `DemosaicExact.NearestIff` | api/wse/data/wse_ImageDemosaic.h:265-267 | Returned values are nearest to their window means under the same condition and only then |
| `DemosaicExact.WideFlatFieldWraps` | api/wse/data/wse_ImageDemosaic.h:255-256 | A 64-bit 3x3 flat field of 2^63 comes back changed |
| `BlockOrientation.BlockOrigin` | api/wse/data/wse_ImageDemosaic.h:200-220 | Each Block2x2 value comes from one site: in the pixel's block, and for green in its upper row |
| `BlockOrientation.RedOfTile` | api/wse/data/wse_ImageDemosaic.h:203-232 | Which of the four sites of a full tile gives its red, for each pattern |
| `BlockOrientation.GreenOfTile` | api/wse/data/wse_ImageDemosaic.h:203-232 | Its green is the green site of the upper row, for each pattern |
| `BlockOrientation.BlueOfTile` | api/wse/data/wse_ImageDemosaic.h:203-232 | Which of the four sites gives its blue, for each pattern |
| `BlockOrientation.SpotTells` | api/wse/data/wse_ImageDemosaic.h:193-236 | Where that site does not move along with the pixel, a source with one bright sample tells the difference |
| `BlockOrientation.BlockOrientationIff` | api/wse/data/wse_ImageDemosaic.h:193-236 | With the layout moved along, Block2x2 commutes with an orientation for all sources if and only if: none, always; horizontal flip, even width; clockwise turn, even extents and Grbg or Gbrg; counter-clockwise turn, even extents and Rggb or Bggr; vertical flip and half turn, never |
| `Channels.ConvertChannelOrder` | api/wse/data/wse_ImageInterleaved.h:399-432 | Channels 0 and 2 of every pixel are exchanged and a fourth is kept; an empty source is refused |
| `Channels.ConversionCopiesIff` | api/wse/data/wse_ImageInterleaved.h:395-428 | A conversion copies the image if and only if channels 0 and 2 agree at every pixel, whatever the formats are called |
| `Channels.ConversionChangesRed` | api/wse/data/wse_ImageInterleaved.h:395-428 | One red pixel is changed by a conversion to its own format |
| `Channels.SwappedTwice` | api/wse/data/wse_ImageInterleaved.h:422-428 | Converting twice restores the image |
| `Accumulator.ImageAccumulator.constructor` | api/wse/data/wse_ImageTransform.h:221-227 | A new accumulator holds no frame |
| `Accumulator.ImageAccumulator.Add` | api/wse/data/wse_ImageTransform.h:256-291 | An accepted frame is appended to the accumulation; a refused one changes no field |
| `Accumulator.ImageAccumulator.AddSamples` | api/wse/data/wse_ImageTransform.h:276-289 | Every channel sample is added, in storage order, to its own wrapping sum |
| `Accumulator.ImageAccumulator.SumAt` | api/wse/data/wse_ImageTransform.h:284-285 | After any adds and resets, each stored sum is the exact sum since the last reset, folded by the sum type |
| `Accumulator.ImageAccumulator.Average` | api/wse/data/wse_ImageTransform.h:303-329 | The wrapping arithmetic's average of the accepted frames, at every count; a logic error when there are none, and a division by zero exactly when the count is a multiple of the modulus |
| `Accumulator.ImageAccumulator.Reset` | api/wse/data/wse_ImageTransform.h:332-338 | Discards the accumulation |
| `AverageLaws.FramesExactIff` | api/wse/data/wse_ImageTransform.h:310-323 | The average of given frames is the exact rounded mean if and only if no channel sum with its rounding wraps |
| `AverageLaws.AverageExactIff` | api/wse/data/wse_ImageTransform.h:310-323 | For every k, the average of k frames of a format exists and is exact for all frames if and only if k * max + k / 2 fits the sum type |
| `AverageLaws.FormatBounds` | api/wse/data/wse_ImageTransform.h:234-235 | That bound is exactly 16810048 frames for 8-bit channels, 65536 for 16-bit, 4294967296 for 32-bit and 1 for 64-bit |
| `AverageLaws.BeyondBoundWrong` | api/wse/data/wse_ImageTransform.h:310-323 | Beyond the bound, at every count, frames exist whose average is wrong or divides by zero |
| `AverageLaws.MeanIsMean` | api/wse/data/wse_ImageTransform.h:303-329 | Each channel of the exact mean lies between the least and greatest of its samples and within one half of their mean |
| `AverageLaws.AverageNearestIff` | api/wse/data/wse_ImageTransform.h:303-329 | For every k, the returned average of k frames exists and is nearest to the mean for all frames if and only if k * max + k / 2 fits the sum type |
| `AverageLaws.MeanOfEqual` | api/wse/data/wse_ImageTransform.h:303-329 | The exact mean of copies of one image is that image |
| `AverageLaws.AverageOfEqualIff` | api/wse/data/wse_ImageTransform.h:303-329 | Fewer copies of one image than the sum type can count average to that image if and only if no sum wraps |
| `AverageLaws.AveragePermuted` | api/wse/data/wse_ImageTransform.h:256-329 | Neither the exact mean nor the average the code returns depends on the order of the frames, at any count |
| `AverageLaws.AverageMoved` | api/wse/data/wse_ImageTransform.h:138-194 | Averaging commutes with every reorientation |
| `AverageLaws.AverageSwapped` | api/wse/data/wse_ImageInterleaved.h:399-432 | Averaging commutes with channel-order conversion |
| `AverageLaws.AverageImages` | api/wse/data/wse_ImageTransform.h:363-371 | Refuses lists of unequal or empty shapes, reports a logic error for an empty list, divides by zero for multiples of the modulus, and averages otherwise |
| `Layout.LayoutMeaning` | api/wse/data/wse_ImageInterleaved.h:164-184 | The wrapping test equals its unbounded meaning |
| `Layout.NothingWraps` | api/wse/data/wse_ImageInterleaved.h:173-183 | No operation of the test wraps, for accepted and rejected layouts alike |
| `Layout.SpanNeverDecides` | api/wse/data/wse_ImageInterleaved.h:181-182 | The span test never rejects what the earlier tests accept |
| `Layout.RowsInside` | api/wse/data/wse_ImageInterleaved.h:349-380 | Acceptance places every byte of the copy loops inside the accessible buffer, without wrapping |
| `Interleaved.WriteImage` | api/wse/data/wse_ImageInterleaved.h:334-381 | True exactly for a fitting layout and matching shape; then all rows are stored and margins and bytes past the last row are unchanged; false writes nothing |
| `Interleaved.CopyRow` | api/wse/data/wse_ImageInterleaved.h:357-363 | The verbatim copy stores the row's bytes and changes no other byte |
| `Interleaved.HostOrder` | api/wse/data/wse_ImageInterleaved.h:357-363 | Where rows are copied verbatim the host stores the low byte first |
| `Interleaved.SplitRow` | api/wse/data/wse_ImageInterleaved.h:364-377 | The byte-by-byte copy stores the two low bytes of every sample and changes no other byte |
| `Interleaved.MakeImage` | api/wse/data/wse_ImageInterleaved.h:271-319 | An image whose every sample is read from its place in the strided buffer; an invalid view is refused |
| `Interleaved.MakeSample` | api/wse/data/wse_ImageInterleaved.h:294-316 | A sample is the host's own representation, or two bytes with the low one first |
| `Interleaved.WriteThenRead` | api/wse/data/wse_ImageInterleaved.h:271-381 | Writing and then reading yields the image, each sample as far as the host moves it |
| `Interleaved.RoundTripIff` | api/wse/data/wse_ImageInterleaved.h:303-314 | The round trip is exact if and only if the host copies verbatim or every sample is below 65536 |
| `Interleaved.WideSampleLost` | api/wse/data/wse_ImageInterleaved.h:303-314 | A 32-bit sample of 65536 on a big-endian host comes back as zero |
| `Interleaved.WriteAndRead` | api/wse/data/wse_ImageInterleaved.h:271-381 | Writing and reading back through one layout succeeds exactly when the layout fits and the shapes agree, and then returns the image on little-endian hosts and for samples of up to two bytes |
| `Interleaved.SmallSamplesRoundTrip` | api/wse/data/wse_ImageInterleaved.h:271-381 | It is exact for all 8-bit and 16-bit images on hosts of either byte order |
| `Interleaved.PathsAgree` | api/wse/data/wse_ImageInterleaved.h:357-378 | For samples of up to two bytes the byte-by-byte path leaves exactly the bytes of the verbatim copy |
| `Staging.KeepsExclusive` | core/gef/FileOperations.h:67-81 | Every step of every call keeps live staging directories new and owned by one call each |
| `Staging.KeepsAccounted` | core/gef/FileOperations.h:41-56 | Every step keeps each directory accounted for: it was there, a live call owns it, or its cleanup failed |
| `Staging.KeepsComplete` | core/gef/FileOperations.h:83-94 | A call about to rename always has its own completed output in its staging file |
| `Staging.KeepsRecorded` | core/gef/FileOperations.h:86-94 | Every step keeps the destinations equal to the replay of the successful renames |
| `Staging.RunInv` | core/gef/FileOperations.h:58-95 | The invariant holds in every state of every interleaving of any number of calls |
| `Staging.LiveDirectoriesDistinct` | core/gef/FileOperations.h:67-81 | At every moment live staging directories exist, are new, and are pairwise distinct |
| `Staging.DestinationsComplete` | core/gef/FileOperations.h:83-94 | At every moment each destination holds its initial content or one call's complete output for it |
| `Staging.OutcomeMatchesEffect` | core/gef/FileOperations.h:82-94 | A failed call never replaced its destination; a successful one replaced it exactly once with its own output |
| `Staging.OnlyRenamesReplace` | core/gef/FileOperations.h:86-93 | No step but a rename changes any destination |
| `Staging.ResidueIsLeaked` | core/gef/FileOperations.h:41-56 | Once all calls are done, the new directories are exactly those whose cleanup failed |
| `Staging.NoResidue` | core/gef/FileOperations.h:41-56 | Without storage faults nothing staged remains once all calls are done |
| `Staging.CallsEnd` | core/gef/FileOperations.h:58-95 | An unfinished call can always move, and each move other than a write brings it closer to its end |
| `Staging.SixtyFourNames` | core/gef/FileOperations.h:67-82 | In every reachable state a call gives up exactly after 64 taken names; before that a taken name leads to the next and a free one can be created |
| `AtomicWrite.OthersLeaveAlone` | core/gef/FileOperations.h:67-84 | Other calls change neither a call's progress nor its staging file |
| `AtomicWrite.Acquire` | core/gef/FileOperations.h:67-82 | The first of 64 names that is free when tried becomes the call's directory; every name before it was taken when tried and no creation failed; failure means an error of the next creation or 64 taken names |
| `AtomicWrite.RunWriter` | core/gef/FileOperations.h:83-85 | A successful writer leaves its own complete output staged, whatever other calls do meanwhile |
| `AtomicWrite.CleanUp` | core/gef/FileOperations.h:45-55 | Best-effort removal ends the call without changing its outcome; the directory is gone unless a removal failed |
| `AtomicWrite.AtomicWrite` | core/gef/FileOperations.h:58-95 | Under arbitrary interference the call is a run of the protocol that ends with it done; it reports success exactly when its output was renamed into place; with a succeeding writer and rename it fails only after a creation error or 64 names taken when tried; without storage faults its directory is gone |
| `AtomicWrite.OutcomeRecorded` | core/gef/FileOperations.h:83-95 | A finished call reports success exactly when the record of renames holds its output at its destination |
| `Resolver.AppendUniqueFacts` | bootstrap.py:264-267 | Appending keeps what was there in place, adds exactly the values, and introduces no duplicate |
| `Resolver.WalkIsReachability` | bootstrap.py:269-283 | The walk ends on every graph, cyclic ones included; it succeeds exactly when all reachable names have profiles and then finishes exactly those, each once |
| `Resolver.VisitAllTopological` | bootstrap.py:269-283 | If no component implies itself, visits finish in topological order |
| `Resolver.ImplierComesLater` | bootstrap.py:269-283 | A component finishes after everything it implies, directly or not |
| `Resolver.LastSets` | bootstrap.py:279-290 | An option's value is that of the last profile that sets it |
| `Resolver.PackagesAreTheUnion` | bootstrap.py:260-292 | The package list is duplicate-free and holds exactly what a reachable component or a chosen language needs, for every target or for this one |
| `Resolver.PackagesInOrder` | bootstrap.py:269-290 | Packages are in order of first mention: components as their visits finish, then languages as chosen, each with its general packages before those of the target |
| `Resolver.ToolchainsAreTheUnion` | bootstrap.py:285-292 | The toolchain list is duplicate-free and holds exactly what a chosen language names |
| `Resolver.ToolchainsInOrder` | bootstrap.py:285-292 | Toolchains are in order of first mention by the chosen languages |
| `Resolver.ImpliedFinishFirst` | bootstrap.py:269-280 | A component finishes right after what it implies |
| `Resolver.LeavesInOrder` | bootstrap.py:281-283 | Components that imply nothing finish in the order they are named |
| `Resolver.FailsExactlyWhenOpen` | bootstrap.py:269-283 | A missing profile is reported exactly when a reachable component has none |
| `Resolver.SelectionErrors` | bootstrap.py:247-258 | Unknown languages are reported exactly when there are any, unknown components exactly when there are any and no unknown language, and success comes exactly when every reachable name has a profile |
| `Resolver.OptionsPresent` | bootstrap.py:279-290 | An option is set exactly when a reachable component or a chosen language sets it |
| `Resolver.ImpliersOverride` | bootstrap.py:269-283 | If no component implies itself, none that implies the winner of an option sets that option |
| `Resolver.LanguagesOverride` | bootstrap.py:285-290 | Languages override components, and the last language that sets an option wins |
| `Resolver.Expansion.VisitComponent` | bootstrap.py:269-279 | The recursive visit updates the seen set, the packages and the options as the walk says |
| `Resolver.Expansion.VisitComponents` | bootstrap.py:281-283 | The same for a list of components visited in turn |
| `Resolver.ResolveSelection` | bootstrap.py:232-292 | The operation with its recursive visits returns the expansion or the error that the lemmas are about |
| `Provision.MissingMeans` | bootstrap.py:538-555 | Nothing is reported missing exactly when all files exist, all patterns match and the metadata identity agrees |
| `Provision.CheckRequired` | bootstrap.py:538-555 | The complaint list, in order: files, patterns, metadata |
| `Provision.ComplaintsInOrder` | bootstrap.py:538-555 | An empty tree is reported file first, then pattern, then metadata file; a metadata file with other content as an identity mismatch |
| `Provision.SatisfiesBelow` | bootstrap.py:538-555 | What a package requires depends only on what is below its directory |
| `Provision.SuccessSatisfies` | bootstrap.py:1208-1274 | A ready or installed target has everything its package requires |
| `Provision.InstalledIsStaged` | bootstrap.py:1258-1270 | Below its directory an installed target is exactly the staged tree |
| `Provision.InstalledIsCopied` | bootstrap.py:1258-1270 | Path by path, an installed target holds every copied entry, its own identity in the metadata file, and nothing else |
| `Provision.ReadyExactlyWhen` | bootstrap.py:1217-1220 | A call is ready exactly when its target exists with every required file, a match of every pattern and its own identity |
| `Provision.InstalledExactlyWhen` | bootstrap.py:1217-1271 | What an installation takes, as an equivalence: leave to replace, sources, outputs, a complete copy and a replacement without fault |
| `Provision.OutputsAreThere` | bootstrap.py:1242-1249 | Outputs are there to copy exactly when they and a current stamp were, or a rebuild succeeded and left them |
| `Provision.FaultsLeave` | bootstrap.py:1267-1273 | A failed move leaves nothing of the target, an interrupted removal what it had not removed |
| `Provision.FailureKeepsTargets` | bootstrap.py:1219-1273 | A call that does not reach the replacement leaves the vendor directory unchanged; a failure after that point met a fault there; an unforced failure on an existing target changes nothing; no call changes anything outside its own directory |
| `Provision.OtherTargetsKept` | bootstrap.py:1208-1274 | A call changes nothing at or below a directory apart from its own |
| `Provision.NestedTargetIff` | bootstrap.py:1267-1270 | After an installation a target below the installed directory satisfies its package if and only if the staged tree does there |
| `Provision.SuccessIsRemembered` | bootstrap.py:1217-1220 | After a success the same package is ready again, through any calls for directories apart from its own, and asking changes nothing |
| `Provision.CallKeepsCache` | bootstrap.py:1242-1249 | Every call keeps stamps and outputs equal to what the history of builds determines |
| `Provision.StampKeysDiffer` | bootstrap.py:1092-1095 | For platforms and architectures without a dash, two recipes share a stamp exactly when name, platform and architecture are the same |
| `Provision.OtherStampsKept` | bootstrap.py:1118-1126 | A build changes no stamp but its own |
| `Provision.ProvenanceMeans` | bootstrap.py:1129-1159 | A source root holds files of exactly the recipes whose builds wrote into it since it was last replaced |
| `Provision.CoherentExactlyWhen` | bootstrap.py:1077-1172 | Over any run, a call copies outputs of its own recipe alone if and only if, since its source root was last replaced, that recipe has written into it and no other has |
| `Provision.ReplacingCoherentIff` | bootstrap.py:1235-1249 | If successes replace their source root and failures do not: a rebuilt copy is coherent, and a reused one whose recorded success lies in its own root is so if and only if no failed build of another recipe has written there since |
| `Provision.NoReturnIsCoherent` | bootstrap.py:1235-1249 | Then every copy is coherent if package and source root stay together and recipes never return or failed builds touch nothing |
| `Provision.ReturnCopiesMixedOutputs` | bootstrap.py:1242-1249 | A concrete run in which a returning recipe copies outputs mixed by a failed build |
| `Provision.OverlayCopiesLeftovers` | bootstrap.py:1129-1172 | A concrete run without failures or returns in which a new recipe copies leftovers of the old one |
| `Provision.MovedRootCopiesForeign` | bootstrap.py:1081-1099 | A concrete run in which a git package goes back to an earlier checkout directory and copies another recipe's outputs: the stamp does not say where the recorded build ran |
| `Provision.Bootstrap.PrepareOutputs` | bootstrap.py:1234-1249 | Rebuilds in the package's source root when the stamp is stale or outputs are absent, stamps only a success, and clears nothing of its own |
| `Provision.Bootstrap.ProvisionPackage` | bootstrap.py:1208-1274 | The state left behind and the outcome are those of the specification the lemmas are about |
| `Archive.Dirname` | tools/bootstrap/verify_toolchain_pins.py:195-198 | A parent is shorter than its path unless the path is all slashes, so the walk up ends |
| `Archive.DirnameOfChild` | tools/bootstrap/verify_toolchain_pins.py:195-198 | The parent of a name in a directory is that directory, and of a name at the root the root |
| `Archive.DirnameOfPlain` | tools/bootstrap/verify_toolchain_pins.py:195-198 | A name without a slash has the empty parent |
| `Archive.FillParents` | tools/bootstrap/verify_toolchain_pins.py:194-199 | The early-stopping walk yields the least table that contains the entries and is closed under parents; no entry is overwritten |
| `Archive.PrefixesFilled` | tools/bootstrap/verify_toolchain_pins.py:194-199 | Every prefix of an entry that ends before a single slash is in the filled table, the current directory excepted |
| `Archive.NestedFile` | tools/bootstrap/verify_toolchain_pins.py:194-199 | For a/b/c alone exactly a/b and a are added, as directories |
| `Archive.TopNotAdded` | tools/bootstrap/verify_toolchain_pins.py:196 | The current directory and the empty name are never added for a relative name |
| `Archive.LeastClosureUnique` | tools/bootstrap/verify_toolchain_pins.py:194-199 | That table is unique, so the visiting order does not matter |
| `Archive.ResolveEntry` | tools/bootstrap/verify_toolchain_pins.py:202-215 | Resolution in at most seven links is returned; eight links in a row are rejected, and only those |
| `Archive.NextName` | tools/bootstrap/verify_toolchain_pins.py:208-214 | One step: a rooted target is normalised without its slash, any other after joining it with the directory of the link |
| `Archive.ResolvesAtOnce` | tools/bootstrap/verify_toolchain_pins.py:205-207 | A name that is no link resolves to its own entry, or to nothing |
| `Archive.ResolutionUnique` | tools/bootstrap/verify_toolchain_pins.py:202-215 | Unbounded resolution has one answer, so the bounded one agrees with it |
| `Archive.CyclesAreTooDeep` | tools/bootstrap/verify_toolchain_pins.py:204-215 | A name that leads into a cycle of links is always rejected |
| `Ratchet.DecimalRoundTrip` | tools/ci/check_warning_ratchet.py:51 | A conversion of digit strings reads every printed count, which is all that the other results assume of it |
| `Ratchet.LinesRoundTrip` | tools/ci/check_warning_ratchet.py:74 | Splitting joined lines returns them when none holds a line break |
| `Ratchet.SplitsExactlyAt` | tools/ci/check_warning_ratchet.py:47 | Ten characters end a line and no other does; a carriage return with a line feed is one end |
| `Ratchet.WrittenText` | tools/ci/check_warning_ratchet.py:66-71 | The text of a written baseline: three comment lines, then name, tab and count |
| `Ratchet.LinesReadAs` | tools/ci/check_warning_ratchet.py:47-51 | Blank lines and comments say nothing; the last tab separates name and count |
| `Ratchet.MissingBaseline` | tools/ci/check_warning_ratchet.py:45-46 | Without a baseline file only a log without warnings passes |
| `Ratchet.WrittenLoads` | tools/ci/check_warning_ratchet.py:43-74 | Loading a written baseline restores every entry whose name does not start a comment |
| `Ratchet.BaselineRoundTripIff` | tools/ci/check_warning_ratchet.py:43-74 | Loading a written baseline restores the counts if and only if no name holds a line break or starts with '#'; tabs do no harm |
| `Ratchet.SplitEntries` | tools/ci/check_warning_ratchet.py:47-74 | The text of written entries splits into the pieces of their names, the last piece of each with its count |
| `Ratchet.RewrittenLoads` | tools/ci/check_warning_ratchet.py:43-74 | A rewritten baseline loads what the pieces of its names assign in order, or not at all |
| `Ratchet.RewriteSafeIff` | tools/ci/check_warning_ratchet.py:66-91 | A rewrite lets no later count rise, whatever was counted for the names, if and only if a piece inside a name is no entry, or some file ends up negative, or each file gets its count last from its own entry or from a piece that says at most one for a counted file and zero for another |
| `Ratchet.UnbrokenNamesSafe` | tools/ci/check_warning_ratchet.py:66-91 | Names without line breaks are safe in that sense |
| `Ratchet.BrokenNameReadsAsTwo` | tools/ci/check_warning_ratchet.py:43-74 | A counted name with a line break inside can read back as two entries |
| `Ratchet.BreaksLetCountsRise` | tools/ci/check_warning_ratchet.py:66-91 | A concrete name with a vertical tab after which a count rises |
| `Ratchet.Compare` | tools/ci/check_warning_ratchet.py:79-86 | The loop reports exactly the files whose counts rose and exactly those whose counts fell |
| `Ratchet.CountsNeverRise` | tools/ci/check_warning_ratchet.py:66-91 | Over any run of passing gates with safe names that rewrite the baseline, no file's count and no total ever rises |
| `Ratchet.NeverAboveBaseline` | tools/ci/check_warning_ratchet.py:66-91 | Nor above the baseline the run started from |
| `Matrix.Multiply` | api/wse/data/wse_Matrix.h:580-597 | The triple loop computes the sum of products; mismatched shapes and unrepresentable results are refused |
| `Matrix.AccumulateCell` | api/wse/data/wse_Matrix.h:590-593 | The innermost loop adds one row-by-column product sum into one cell and touches no other |
| `Matrix.ProductOfPairs` | api/wse/data/wse_Matrix.h:586-595 | A product over two columns, written out |
| `Matrix.Associative` | api/wse/data/wse_Matrix.h:580-597 | The product is associative |
| `Matrix.DistributesLeft` | api/wse/data/wse_Matrix.h:580-597 | It distributes over addition on the right factor |
| `Matrix.DistributesRight` | api/wse/data/wse_Matrix.h:580-597 | It distributes over addition on the left factor |
| `Matrix.IdentityLaws` | api/wse/data/wse_Matrix.h:387-391 | The identity is neutral on both sides |
| `Matrix.DiagonalProduct` | api/wse/data/wse_Matrix.h:356-364 | The product of two diagonal matrices is the diagonal of the products |
| `Matrix.Add` | api/wse/data/wse_Matrix.h:248-260 | In-place addition; a mismatch changes nothing |
| `Matrix.Diagonal` | api/wse/data/wse_Matrix.h:356-364 | Zeros outside the diagonal, the given elements on it |
| `Matrix.Scalar` | api/wse/data/wse_Matrix.h:375-379 | One value all along the diagonal |
| `Matrix.Identify` | api/wse/data/wse_Matrix.h:387-391 | Returns the identity matrix |
| `Matrix.Transpose` | core/wse/data/wse_Matrix.cpp:263-275 | Row i of the result is column i of the source |
| `Matrix.TransposedTwice` | core/wse/data/wse_Matrix.cpp:263-275 | Transposing twice restores the matrix |
| `Matrix.TransposedProduct` | core/wse/data/wse_Matrix.cpp:263-275 | Transposition reverses products |
| `Determinant.RowsExchanged` | core/wse/data/wse_Matrix.cpp:233-241 | Exchanging any two rows negates the cofactor expansion |
| `Determinant.RowReduced` | core/wse/data/wse_Matrix.cpp:245-253 | Subtracting a multiple of another row leaves the cofactor expansion unchanged |
| `Elimination.PivotRow` | core/wse/data/wse_Matrix.cpp:218-225 | The first row from r on whose cell in column r is largest in absolute value |
| `Elimination.ExchangeRows` | core/wse/data/wse_Matrix.cpp:234-239 | The cell-by-cell swap exchanges two whole rows |
| `Elimination.ReduceRow` | core/wse/data/wse_Matrix.cpp:249-252 | A multiple of one row is subtracted from another, from one column on |
| `Elimination.ClearBelow` | core/wse/data/wse_Matrix.cpp:245-253 | The column below the pivot becomes zero and the determinant of the block stays |
| `Elimination.Eliminate` | core/wse/data/wse_Matrix.cpp:212-255 | Elimination with partial pivoting computes the cofactor expansion |
| `Elimination.DeterminantOf` | core/wse/data/wse_Matrix.cpp:197-256 | The determinant of every square matrix, small cases included, is its cofactor expansion; other shapes are refused |
| `DeterminantLaws.FormsAgree` | core/wse/data/wse_Matrix.cpp:197-256 | Row operations determine a form on square matrices up to its value at the identity |
| `DeterminantLaws.Multiplicative` | core/wse/data/wse_Matrix.cpp:197-256 | The determinant of a product is the product of the determinants |
| `DeterminantLaws.TransposeInvariant` | test/characterization/wse_matrix_correctness_contract.cpp:211-220 | The determinant does not change under transposition |
| `DeterminantLaws.InverseDeterminant` | core/wse/data/wse_Matrix.cpp:297-397 | Inverse matrices have inverse determinants |
| `Inverse.DivideRow` | core/wse/data/wse_Matrix.cpp:377-381 | A row is divided by its pivot and nothing else changes |
| `Inverse.ClearOthers` | core/wse/data/wse_Matrix.cpp:384-394 | The column is cleared in every other row of both matrices, keeping the solutions of the system |
| `Inverse.Solve` | core/wse/data/wse_Matrix.cpp:348-396 | Gauss-Jordan elimination succeeds exactly when every pivot exceeds the tolerance; success is a two-sided inverse and a nonzero determinant, failure without tolerance a zero determinant and a nonzero vector sent to zero |
| `Inverse.SolvedIsInverse` | core/wse/data/wse_Matrix.cpp:348-396 | A companion whose system has the same solutions is a two-sided inverse |
| `Inverse.FailureIsDegenerate` | core/wse/data/wse_Matrix.cpp:373-375 | A vanished pivot column yields a nonzero vector that the matrix sends to zero |
| `Inverse.DegenerateHasNoInverse` | core/wse/data/wse_Matrix.cpp:373-375 | A matrix that sends a nonzero vector to zero has no inverse |
| `Inverse.LargestCell` | core/wse/data/wse_Matrix.cpp:335-342 | The largest absolute value of any cell |
| `Inverse.TryInverse` | core/wse/data/wse_Matrix.cpp:297-397 | For every tolerance a reported inverse is a two-sided inverse; without tolerance a singular outcome means determinant zero and no inverse, the empty matrix excepted; non-square input is refused; which matrices are accepted under which tolerance is stated exactly |
| `InverseLaws.AcceptedMore` | core/wse/data/wse_Matrix.cpp:318-323 | What one tolerance accepts, every smaller one accepts |
| `InverseLaws.ToleranceIsRelative` | core/wse/data/wse_Matrix.cpp:333-345 | Multiplying a matrix by a nonzero number never changes whether it is inverted |
| `InverseLaws.IdentityVerdict` | core/wse/data/wse_Matrix.cpp:319-345 | The identity of n >= 3 rows is inverted exactly when n * epsilon < 1, that of two exactly when 4 * epsilon < 1, that of one always |

## Left out

- Floating-point rounding in `Matrix_`: matrices are over the reals; machine epsilon is a parameter, so the tolerance tests are kept and rounding error is not.
- `applyColorMatrix`, covariance, rotation matrices, subtraction and scalar operators: they would add easy members.
- Accumulator.ImageAccumulator.Add: width * height * channels is taken as representable, as it is for any image that exists.
- Grid.Map.constructor: does not itself refuse a shape that is not representable; `Grid.NewMap`, which does, is what the library offers.
- DemosaicLaws.BilinearMonotone: speaks of the window means; `DemosaicExact.MonotoneIff` is about what the code returns.
- Demosaic.BilinearBetween: speaks of the window means; `DemosaicExact.BetweenIff` is about what the code returns.
- DemosaicLaws.BilinearNearest: speaks of the window means; `DemosaicExact.NearestIff` is about what the code returns.
- DemosaicLaws.FlatField: speaks of the window means; `DemosaicExact.FlatFieldIff` is about what the code returns.
- AverageLaws.MeanIsMean: speaks of the exact mean; `AverageLaws.AverageNearestIff` is about what the code returns.
- AverageLaws.MeanOfEqual: speaks of the exact mean; `AverageLaws.AverageOfEqualIff` is about what the code returns.
- Moved-from `Map` objects, which keep their shape without data, and the copy, swap and range operations of `Map`.
- Interleaved.WriteImage: the buffer pointer is an array that holds at least the bytes the caller declares accessible.
- Staging.RunInv: create, rename and remove are atomic steps; crash durability, memory order, allocation failure and a hostile directory are not modelled.
- AtomicWrite.AtomicWrite: the clock and the counter behind a candidate name are arbitrary names; exclusivity is proved without them.
- Resolver.ResolveSelection: which unknown names an error message lists is not modelled; profiles are already parsed.
- Provision.Bootstrap.ProvisionPackage: platform resolution, downloads, digests, Git, archive extraction and subprocesses are outcomes of the call; a corrupt stamp counts as an absent one; a target path is a directory or absent; one installation at a time; the folders created above a target and the staging directory beside it are not part of the vendor tree; source roots overlap only if they are equal; a recipe does not identify the commit or the archive it was built from, and neither does the model; which files of a source root a recipe left is kept as a set of recipes, not file by file.
- Provision.StampKeysDiffer: needs platforms and architectures without a dash; with one, name a-b on platform c and name a on platform b-c share a stamp.
- Archive.ResolveEntry: `posixpath.normpath` and `posixpath.join` are arbitrary functions; reading zip and tar members is not modelled.
- Ratchet.Compare: parsing warnings out of a build log is not modelled; every counted file has at least one warning.
- Camera sessions, renderer, keyboard, C ABI, transports, language bindings, CSV and binary controllers, documentation generators and offline-kit policies.
