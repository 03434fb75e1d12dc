# A Dafny model of luminate

luminate controls lights: keyboards, lamps and other devices, each with surfaces, elements and groups, and
user-made collections that span devices. This project models the parts of it that decide something, and proves
what they are for. `dafny verify dfyconfig.toml` checks all of it.

- **Which targets to drive.** `TargetExpansion` is the visualizer's expansion of a selection to the finest
  targets that can render, over arbitrary and even cyclic group graphs. The mutable traversal is proved equal to
  a walk, and the walk to a frontier defined by reachability alone; `RenderingTargets` says whose capabilities
  decide. `AllOff` is the plan and the command that turn everything off with as few targets as possible, and
  `AllOffOutcomes` when that fails.
- **Collections.** `CollectionGraph`, `CollectionTraversal`, `CollectionProjection` and `RepeatedProjection` resolve and
  project a membership graph that may have duplicates, missing references and cycles. The cached traversals are proved
  equal to ones without a cache, and hiding targets is proved to commute with resolving.
- **The bouncing balls.** `Vectors`, `Collisions`, `Simulation`, `StepEffects`, `Placement`, `BallWorld`,
  `Xorshift`, `Draws` and `KeyTracking`: one physics step and what it does to each ball, the placement of the
  balls, key presses and the random generator, with conservation over whole runs. Real arithmetic is exact.
- **Colours.** `ColourReconstruction` is the video player's separate sampling of brightness and colour, in
  32-bit integers; `FramePixels` says where its pixels lie and which of them matter. `HueSaturation`,
  `StaticColours` and `ColourConversion` convert 8-bit colours into the model of a target, how accurately is in
  `ColourAccuracy`. The round trips of hue, saturation and value are over exact reals; what is sent to a target is
  modelled in 32-bit floats, every operation rounded (`Floats`, `SinglePrecision`), since there the rounding
  decides whether a component fits.
- **Media pipes.** `MediaPipes` reads audio and video from pipes that split the stream anyhow and may fail.
- **The command line.** `PluginSetup` is the setup dialogue with an arbitrary daemon, over every prefix of every
  run. `Preferences` edits a list that stands for a map.

`Results`, `Reals`, `Sequences`, `Graphs` and `Topology` hold what these share.

Where the code mutates, the model does too: classes with `modifies` clauses and loops with invariants, each
proved equal to a function of its inputs or of the old state, about which the theorems are stated. What lies
outside the program is a parameter that is quantified over: the daemon's replies and the lines typed, the
outcome of each attempt to turn off a target, how reads are split, the square root and the unit vector of an
angle, the visibility rules, and the sorted order of identifiers.

Some expectations turn out not to hold of the code, which the model follows. Each has a concrete case and the
exact condition under which the expectation does hold:

- Two balls whose centres nearly coincide need not end two radii apart (`NearlyCoincidentBallsMissContact`,
  `BallsSeparate`), and can still be approaching (`NearlyCoincidentBallsCanApproach`, `BallsDoNotApproach`).
- Clamping can change the brightness of a reconstructed colour (`ClampingChangesLuma`, `LumaIsPreservedExactly`,
  `LumaSurvivesLittleClamping`).
- A uniform colour can change its green by one (`UniformGreenCanChange`, `UniformColourSurvives`).
- Repeated identifiers can make the targets of an all-off plan overlap (`RepeatedIdsOverlap`,
  `NonOverlappingExactly`). The daemon rejects descriptors with repeated surface or element identifiers
  (crates/luminated/src/normalize.rs:99-130), so only direct callers of the public planning function can meet this.
- A choice whose identifier is a number can be shadowed by position or refused (`NumericIdsAreShadowed`,
  `ChoosingByIdExactly`).
- Integer channels of more than 24 bits do not reach full scale (`WideChannelFallsShort`, `FullScaleExactly`), and
  scaled units of 25 to 31 bits can exceed it by one (`WideValueOvershoots`, `StaticColourFits`).

## Model

| member | source | states |
|---|---|---|
| `TargetExpansion.ExpansionIsFrontier` | crates/libluminate/examples/audio_visualizer.rs:235-357 | A successful expansion lists, without repeats, exactly the reachable targets that can render and have nothing rendering strictly below them |
| `TargetExpansion.ExpansionFailsExactly` | crates/libluminate/examples/audio_visualizer.rs:260-348 | Expansion fails if and only if a missing device, surface or group, or a group cycle, is reachable; the error names a reachable target of which it is true |
| `TargetExpansion.ExpansionCovers` | crates/libluminate/examples/audio_visualizer.rs:270-357 | Nothing that can render is lost: it, or something below it, is in the expansion |
| `TargetExpansion.ExpansionIsAntichain` | crates/libluminate/examples/audio_visualizer.rs:351-356 | No expanded target lies strictly below another |
| `TargetExpansion.SelectionOrderIsIrrelevant` | crates/libluminate/examples/audio_visualizer.rs:235-251 | Two selections of the same targets both fail or expand to the same set |
| `TargetExpansion.ExpansionIsIdempotent` | crates/libluminate/examples/audio_visualizer.rs:239-250 | Expanding an expansion succeeds and returns the same list in the same order |
| `TargetExpansion.OnlyGroupsCycle` | crates/libluminate/examples/audio_visualizer.rs:313-348 | Only a group can be below itself, so the set of groups on the path is all the traversal needs to terminate |
| `TargetExpansion.WalkIsFrontier` | crates/libluminate/examples/audio_visualizer.rs:253-357 | The walk of one target from any path of entered groups gives the frontier below it, or an error justified by a target below it |
| `TargetExpansion.Expander.ExpandTarget` | crates/libluminate/examples/audio_visualizer.rs:253-357 | The recursive traversal appends the new frontier targets of the walk, restores the path on success, and reports whether anything rendered, for every group graph including cyclic ones |
| `TargetExpansion.Expander.ExpandSurfaces` | crates/libluminate/examples/audio_visualizer.rs:270-282 | Walking the surfaces of a device does what the walk of its children does |
| `TargetExpansion.Expander.ExpandElements` | crates/libluminate/examples/audio_visualizer.rs:283-311 | Walking the elements of a surface does what the walk of its children does |
| `TargetExpansion.Expander.ExpandMembers` | crates/libluminate/examples/audio_visualizer.rs:313-348 | Walking the members of a group does what the walk of its children does |
| `TargetExpansion.ExpandTargets` | crates/libluminate/examples/audio_visualizer.rs:235-251 | The loop over the selection computes the specified expansion, errors included |
| `RenderingTargets.ElementOnFrontier` | crates/libluminate/examples/audio_visualizer.rs:199-233 | An addressed element renders, and is on the frontier, if and only if its own capabilities have a colour that can be driven |
| `RenderingTargets.SurfaceOnFrontier` | crates/libluminate/examples/audio_visualizer.rs:199-311 | An addressed surface renders by frame upload or by its own colours; with frame upload it is always on the frontier, and without it exactly when its own colours and those of none of its elements can be driven |
| `RenderingTargets.DeviceAndGroupRender` | crates/libluminate/examples/audio_visualizer.rs:199-233 | Devices and groups render if and only if their own colours can be driven, whatever they say about frame upload |
| `RenderingTargets.FrameSurfaceIsExpanded` | crates/libluminate/examples/audio_visualizer.rs:235-311 | A surface with frame upload is in a successful expansion if and only if it is reached |
| `RenderingTargets.BelowExactly` | crates/libluminate/examples/audio_visualizer.rs:270-348 | Below a device lie its surfaces, below a surface without frame upload its elements, below a group what its members name, and nothing else |
| `RenderingTargets.DrivableExactly` | crates/libluminate/examples/audio_visualizer.rs:407-451 | Colours can be driven if and only if one of them is hue-based, monochrome, or additive with a red, green, blue or white emitter |
| `StaticColours.StaticModelOf` | crates/libluminate/examples/audio_visualizer.rs:407-451 | The model is that of the first capability that has one, and there is none if and only if no capability has one |
| `ColourAccuracy.ModelIsAdvertised` | crates/libluminate/examples/audio_visualizer.rs:407-451 | The model has the bits of an advertised capability, the first that can be driven; an additive one keeps each emitter it can drive as often as advertised |
| `CollectionGraph.BuildGraph` | crates/luminate-core/src/collection.rs:163-175 | The index holds every identifier, and exactly the repeated identifiers are recorded as duplicates |
| `CollectionGraph.ResolutionIsExact` | crates/luminate-core/src/collection.rs:177-193 | Resolving fails if and only if a duplicate, a missing reference or a cycle is reachable; on success the list has each reachable target once |
| `CollectionGraph.GatherIsExact` | crates/luminate-core/src/collection.rs:253-290 | The depth-first traversal without its cache gathers exactly the targets below a collection, or gives a true reason not to |
| `CollectionTraversal.ResolutionIgnoresListingOrder` | crates/luminate-core/src/collection.rs:161-175 | However the collections are listed, every identifier resolves to the same list or the same error |
| `CollectionTraversal.GatherFromUnreachedPath` | crates/luminate-core/src/collection.rs:260-268 | What a collection gathers does not depend on active collections it cannot reach |
| `CollectionTraversal.CacheHit` | crates/luminate-core/src/collection.rs:260-262 | Skipping an expanded collection is the same as gathering it in full, which adds nothing |
| `CollectionTraversal.Traversal.CollectLeaves` | crates/luminate-core/src/collection.rs:253-290 | The cached traversal has the outcome of the traversal without a cache, restores the active set on success and keeps its cache sound |
| `CollectionTraversal.Traversal.VisitMembers` | crates/luminate-core/src/collection.rs:274-285 | The members are gathered in order, stopping at the first error |
| `CollectionTraversal.ResolveLeaves` | crates/luminate-core/src/collection.rs:187-193 | Resolution with the cache equals the cache-free specification |
| `CollectionProjection.Project` | crates/luminate-core/src/collection.rs:228-251 | Projection succeeds if and only if every collection resolves, and then lists the projections of the visible ones in identifier order; otherwise the error is that of the first identifier in order that does not resolve |
| `CollectionProjection.Projector.ProjectOne` | crates/luminate-core/src/collection.rs:292-342 | The cached recursion returns the projection defined by reachability, and fails as gathering does |
| `CollectionProjection.Projector.ProjectMembers` | crates/luminate-core/src/collection.rs:314-330 | Exactly the visible targets and the links to visible collections are kept, in order |
| `CollectionProjection.VisibleUnfold` | crates/luminate-core/src/collection.rs:332-341 | The bottom-up test of the code agrees with visibility defined by what is reachable |
| `CollectionProjection.ProjectionsMembers` | crates/luminate-core/src/collection.rs:236-250 | The projections listed are exactly those of the visible collections, each once |
| `CollectionProjection.ProjectionHidesAndCloses` | crates/luminate-core/src/collection.rs:216-222 | A projection shows no hidden target, and every link it keeps leads to a collection it also shows |
| `CollectionProjection.ProjectionCommutesWithResolution` | crates/luminate-core/src/collection.rs:216-251 | Resolving a collection in the projected graph gives its visible targets in their original order if it is visible, and otherwise fails because it is not there |
| `RepeatedProjection.ProjectionIsIdempotent` | crates/luminate-core/src/collection.rs:216-251 | Projecting a projected graph again by the same rule, in the order of identifiers, succeeds where the graph resolves and gives the same list |
| `RepeatedProjection.SameVisibility` | crates/luminate-core/src/collection.rs:216-251 | A collection is visible in the projected graph if and only if it is in the graph, cycles and missing references included |
| `AllOff.PlannedAreMaximal` | crates/libluminate/src/all_off.rs:49-75 | The planned parts are exactly those that can be turned off while nothing above them can, each once |
| `AllOff.PlanIsExactCover` | crates/libluminate/src/all_off.rs:49-75 | Every part that can be turned off has exactly one planned part that is it or contains it |
| `AllOff.PlanIsSound` | crates/libluminate/src/all_off.rs:34-102 | Exactly the wear-limited planned parts are skipped and the others executable; with unique identifiers the two lists are disjoint and without repeats |
| `AllOff.NonOverlappingExactly` | crates/libluminate/src/all_off.rs:49-75 | No two entries of the returned lists coincide or contain each other if and only if the whole device can be turned off, or no surface that can shares its identifier with a surface that has anything to turn off, and no two such elements of other surfaces share both identifiers |
| `AllOff.EntriesArePlanned` | crates/libluminate/src/all_off.rs:34-75 | The entries of the two lists of the plan are the targets of the maximal parts, one entry for each |
| `AllOff.DistinctTargetsExactly` | crates/libluminate/src/all_off.rs:49-75 | Targets identify parts if and only if surface identifiers, and element identifiers within a surface, are unique |
| `AllOff.RepeatedIdsOverlap` | crates/libluminate/src/all_off.rs:49-75 | A device with a repeated surface identifier whose plan names the same target twice |
| `AllOff.MakePlan` | crates/libluminate/src/all_off.rs:49-75 | The loops with their early return build the specified plan in order |
| `AllOff.AddSurface` | crates/libluminate/src/all_off.rs:58-73 | A surface adds itself, or its elements |
| `AllOff.AddElements` | crates/libluminate/src/all_off.rs:65-72 | The elements of a surface that can be turned off are added in order |
| `AllOff.AttemptsAreExact` | crates/luminate-cli/src/commands.rs:566-604 | Exactly the executable targets are attempted; with distinct identifiers each once, and never a skipped one |
| `AllOff.RunPlan` | crates/luminate-cli/src/commands.rs:570-574 | Every target is attempted whatever came of the earlier ones, and an error is counted if and only if some attempt fails |
| `AllOff.RunDevice` | crates/luminate-cli/src/commands.rs:567-593 | Every executable target is attempted after those before, and the device fails as specified, which `AllOffOutcomes.DeviceFailsExactly` gives in terms of capabilities |
| `AllOff.RunAllOff` | crates/luminate-cli/src/commands.rs:561-605 | All devices are processed, the failures counted are exactly the failing devices, so the subtraction cannot underflow, and the exit code is nonzero if and only if there are any |
| `AllOffOutcomes.DeviceFailsExactly` | crates/luminate-cli/src/commands.rs:567-593 | A device fails if and only if no part of it has a colour or an off effect, or one of the attempts at its executable targets fails; a maximal part is skipped, which is no failure, if and only if its off state must be stored and is not wear-safe |
| `AllOffOutcomes.EmptyPlanExactly` | crates/libluminate/src/all_off.rs:49-75 | A plan is empty if and only if no part of the device can be turned off |
| `AllOffOutcomes.OffCapableExactly` | crates/libluminate/src/all_off.rs:77-101 | A part can be turned off if it has a colour or a hardware effect named off; it is wear-limited if its off state is not wear-safe and current state or profiles are required to persist |
| `AllOffOutcomes.FailuresAreCounted` | crates/luminate-cli/src/commands.rs:566-604 | The number of failures is that of the devices that fail, so it is positive if and only if one does |
| `Xorshift.NextIsInvertible` | crates/libluminate/examples/bouncy_balls.rs:369-376 | A draw can be undone: the three shifts have an inverse |
| `Xorshift.NextIsInjective` | crates/libluminate/examples/bouncy_balls.rs:369-376 | Different generator states have different successors |
| `Xorshift.NeverZero` | crates/libluminate/examples/bouncy_balls.rs:360-376 | From any seed, no number of draws reaches the zero state |
| `Xorshift.XorshiftGivesFractions` | crates/libluminate/examples/bouncy_balls.rs:378-381 | Every draw gives a fraction between 0 and 1 |
| `Xorshift.DrawCountsUpperHalf` | crates/libluminate/examples/bouncy_balls.rs:378-381 | The fraction drawn is the upper half of the next word over the largest 32-bit value |
| `Xorshift.NextOfSingleBits` | crates/libluminate/examples/bouncy_balls.rs:369-376 | The lowest and the highest bit spread to the places that shifts by 13, 7 and 17 in this order give |
| `Vectors.NormalizedIsUnit` | crates/libluminate/examples/bouncy_balls.rs:111-118 | The normalized vector is a unit vector along the given one, or the fallback |
| `Collisions.WallCollision` | crates/libluminate/examples/bouncy_balls.rs:485-500 | A ball ends at the nearest place inside the walls, at unchanged speed along each axis, not moving outward where it met a wall |
| `Collisions.BallsKeepEnergy` | crates/libluminate/examples/bouncy_balls.rs:502-520 | A collision of two balls keeps the sum of their squared speeds |
| `Collisions.BallsKeepMomentum` | crates/libluminate/examples/bouncy_balls.rs:502-520 | A collision keeps the total momentum and the midpoint |
| `Collisions.BallsDoNotApproach` | crates/libluminate/examples/bouncy_balls.rs:502-520 | After a collision overlapping balls do not approach along the line between them if and only if their centres were more than the float epsilon apart, or an inequality of the displacement and relative velocity before the collision holds |
| `Collisions.BallsPartAlongNormal` | crates/libluminate/examples/bouncy_balls.rs:515-519 | Along the direction in which they collided, the fallback direction included, overlapping balls never approach afterwards |
| `Collisions.NearlyCoincidentBallsCanApproach` | crates/libluminate/examples/bouncy_balls.rs:502-520 | Two balls within the float epsilon of each other that still approach after the collision |
| `Collisions.BallsSeparate` | crates/libluminate/examples/bouncy_balls.rs:502-513 | Overlapping balls end exactly two radii apart if and only if their centres were more than the float epsilon apart or already lay in the fallback direction |
| `Collisions.BallsExchangeSpeeds` | crates/libluminate/examples/bouncy_balls.rs:502-520 | Overlapping balls with centres more than the float epsilon apart are pushed apart along the line between them; if they approach they exchange their speeds along it, and their speeds across it stay |
| `Collisions.NearlyCoincidentBallsMissContact` | crates/libluminate/examples/bouncy_balls.rs:502-513 | Two balls within the float epsilon of each other that do not end two radii apart |
| `Collisions.FingerCollision` | crates/libluminate/examples/bouncy_balls.rs:522-539 | A ball under a finger ends exactly at contact distance, not moving inward, at unchanged speed, pushed out along the line through its centre when that is longer than the float epsilon; any other ball is untouched |
| `Simulation.StepKeepsEnergy` | crates/libluminate/examples/bouncy_balls.rs:460-482 | A step keeps the sum of squared speeds for any balls, pressed keys and time step |
| `StepEffects.AllPairsExactly` | crates/libluminate/examples/bouncy_balls.rs:466-472 | The pairs of balls are all listed, each once, by their first and then by their second ball |
| `StepEffects.PairsCollide` | crates/libluminate/examples/bouncy_balls.rs:466-472 | The pair phase is the collision of these pairs one after the other, whatever a collision does |
| `StepEffects.TwoBallsSeparate` | crates/libluminate/examples/bouncy_balls.rs:460-482 | With no key pressed, two balls that overlap once moved and put back inside the walls, with centres more than the float epsilon apart, end exactly two radii apart |
| `StepEffects.LastPairSeparates` | crates/libluminate/examples/bouncy_balls.rs:460-482 | For any number of balls and no key pressed, the last two do not overlap after a step if their centres were more than the float epsilon apart when they collided |
| `StepEffects.FreeBallMovesOn` | crates/libluminate/examples/bouncy_balls.rs:460-500 | A ball that meets no ball and no pressed key ends at its position plus its velocity times the time, unchanged in velocity, or where the walls put it |
| `StepEffects.LastKeyIsClear` | crates/libluminate/examples/bouncy_balls.rs:474-481 | After a step no ball is under the last of the pressed keys |
| `StepEffects.KeyPushesBall` | crates/libluminate/examples/bouncy_balls.rs:474-481 | A ball that one pressed key alone gets in the way of is pushed off by that key |
| `StepEffects.KeysAreCentred` | crates/libluminate/examples/bouncy_balls.rs:170-181 | Keys lie half a unit apart, and a 32 by 11 grid of them is centred in the world |
| `Simulation.PairsKeepEnergyAndMomentum` | crates/libluminate/examples/bouncy_balls.rs:466-472 | The loop over all pairs keeps energy and momentum |
| `Simulation.FingersKeepEnergy` | crates/libluminate/examples/bouncy_balls.rs:474-481 | The loop over all pressed keys keeps energy |
| `Simulation.WallsKeepEnergy` | crates/libluminate/examples/bouncy_balls.rs:461-464 | Drifting and bouncing keeps energy and puts every ball inside the walls |
| `Simulation.KicksAreLocal` | crates/libluminate/examples/bouncy_balls.rs:442-458 | A press moves no ball, gives the balls in reach the nominal speed and leaves the others alone |
| `Simulation.KicksDrawInOrder` | crates/libluminate/examples/bouncy_balls.rs:451-457 | The balls in reach take the draws in order, and the generator ends that many draws later |
| `Simulation.KeySetExactly` | crates/libluminate/examples/bouncy_balls.rs:442-458 | A press of a key that was not down sends each ball in reach off at the nominal speed in the direction of its own draw and leaves the others alone; any other press changes nothing; a release only lets go of the key |
| `Simulation.KicksBoundEnergy` | crates/libluminate/examples/bouncy_balls.rs:450-457 | A press that kicks some balls adds at most the nominal squared speed for each |
| `Simulation.RunKeepsEnergy` | crates/libluminate/examples/bouncy_balls.rs:442-482 | Over every run of steps and key changes energy changes only by kicks, and by at most the nominal squared speed for each |
| `Placement.SuccessFromIsExact` | crates/libluminate/examples/bouncy_balls.rs:409-425 | The search for a free place fails if and only if every permitted attempt does |
| `Placement.PlacementFailsWhenStuck` | crates/libluminate/examples/bouncy_balls.rs:408-425 | A run that fails has placed sound balls, fewer than requested, from which every permitted attempt of its own generator is unclear |
| `Placement.StuckPlacementFails` | crates/libluminate/examples/bouncy_balls.rs:408-425 | Conversely a run that gets stuck fails |
| `Placement.SpawningFailsExactly` | crates/libluminate/examples/bouncy_balls.rs:404-440 | A world cannot be filled if and only if its run gets stuck after some number of soundly placed balls |
| `Placement.NextBallDraws` | crates/libluminate/examples/bouncy_balls.rs:408-433 | Each ball is made from the first two draws that give a clear position, each attempt taking two, and from the next one; the generator moves on by as many draws |
| `Placement.PositionsFillWorld` | crates/libluminate/examples/bouncy_balls.rs:411-414 | The positions that two fractions give are exactly those inside the walls |
| `Placement.HuesAreEven` | crates/libluminate/examples/bouncy_balls.rs:426-427 | The hues of the balls divide the circle evenly |
| `Placement.SpawnedBallsAreSound` | crates/libluminate/examples/bouncy_balls.rs:404-440 | Placement fails or gives exactly the requested number of balls, inside the walls, at the nominal speed, spread in hue, pairwise at least 2.1 radii apart |
| `BallWorld.World.SetKey` | crates/libluminate/examples/bouncy_balls.rs:442-458 | The in-place update of keys, velocities and generator state is the specified one |
| `BallWorld.World.Step` | crates/libluminate/examples/bouncy_balls.rs:460-482 | The in-place step is the specified composition of the three phases, and changes neither keys nor generator |
| `BallWorld.World.DriftAndBounce` | crates/libluminate/examples/bouncy_balls.rs:461-464 | Every ball drifts and meets the walls |
| `BallWorld.World.CollidePairs` | crates/libluminate/examples/bouncy_balls.rs:466-472 | Every pair of balls collides once, in the order of the nested loops |
| `BallWorld.World.PushAway` | crates/libluminate/examples/bouncy_balls.rs:478-480 | Every ball meets the finger |
| `BallWorld.KickNear` | crates/libluminate/examples/bouncy_balls.rs:450-457 | Exactly the balls in reach are kicked, each with the next direction drawn |
| `BallWorld.PlaceNextBall` | crates/libluminate/examples/bouncy_balls.rs:409-432 | The ball is that of the first clear attempt within the limit |
| `BallWorld.PlaceBalls` | crates/libluminate/examples/bouncy_balls.rs:408-433 | The loop places the balls as specified, or gives up |
| `BallWorld.NewWorld` | crates/libluminate/examples/bouncy_balls.rs:404-440 | A world is made if and only if placement succeeds, with no key pressed and the generator as left by placement; from every seed its balls are as many as requested, inside the walls, at the nominal speed and apart |
| `KeyTracking.TraceKeepsObstaclesHeld` | crates/libluminate/examples/bouncy_balls.rs:821-831 | Over every trace of key events, each obstacle in the world belongs to a key that is held |
| `KeyTracking.TraceTracksExactly` | crates/libluminate/examples/bouncy_balls.rs:910-961 | Over every trace, on every keyboard and whatever was held or pending at the start: an obstacle is in the world if and only if it was pressed before leaving was pending and not released since |
| `KeyTracking.LeavingExactly` | crates/libluminate/examples/bouncy_balls.rs:954-960 | Leaving is pending if and only if it was at the start or Escape has been pressed |
| `KeyTracking.HeldKeysAreObstacles` | crates/libluminate/examples/bouncy_balls.rs:791-935 | Where different keys are different obstacles and until leaving is asked for, a key is an obstacle if and only if it is held, except keys held from the start and not touched since |
| `KeyTracking.HeldExactly` | crates/libluminate/examples/bouncy_balls.rs:821-831 | Over every trace, a key is held if and only if it was pressed, or held at the start, and not released since |
| `KeyTracking.ObstacleExactly` | crates/libluminate/examples/bouncy_balls.rs:910-935 | A key is the obstacle of the first key of the surface that has its name, and Escape is none |
| `KeyTracking.ExitOnlyReleases` | crates/libluminate/examples/bouncy_balls.rs:954-964 | Once leaving is pending it stays pending, obstacles only disappear and no ball is kicked |
| `KeyTracking.RepeatsChangeNothing` | crates/libluminate/examples/bouncy_balls.rs:821-935 | Every trace leads to the same held keys, world and exit flag as the trace without its automatic repeats |
| `KeyTracking.KeyboardSession.UpdatePressedKeys` | crates/libluminate/examples/bouncy_balls.rs:821-831 | The held set changes as specified |
| `KeyTracking.KeyboardSession.UpdateWorldKey` | crates/libluminate/examples/bouncy_balls.rs:910-935 | The world changes as specified, its early returns included |
| `KeyTracking.KeyboardSession.HandleKey` | crates/libluminate/examples/bouncy_balls.rs:954-961 | Handling an event is the specified step of the trace |
| `PluginSetup.RunSetup` | crates/luminate-cli/src/commands.rs:658-711 | For every script of daemon replies and input lines: snapshots, printed output, requests, lines read and outcome are right in every prefix of the run |
| `PluginSetup.RequestsFollowSnapshots` | crates/luminate-cli/src/commands.rs:679-703 | Every request carries the identity of its snapshot; a response also its generation and a kind that fits its state; polls happen only while applying; interactive choices were on offer |
| `PluginSetup.OneLinePerResponse` | crates/luminate-cli/src/commands.rs:829-835 | As many lines are read as responses sent, and one more exactly when the last answer was refused |
| `PluginSetup.SuccessIsCompletion` | crates/luminate-cli/src/commands.rs:679-709 | A run succeeds if and only if its last snapshot is a completed one, and no earlier snapshot is final |
| `PluginSetup.ChangesCollapse` | crates/luminate-cli/src/commands.rs:667-677 | The printed snapshots are those that occurred, never twice in a row, ending with the latest |
| `PluginSetup.AnswersFit` | crates/luminate-cli/src/commands.rs:777-827 | An accepted answer fits the state that asked, and one chosen interactively was on offer |
| `PluginSetup.ChoosingByIdExactly` | crates/luminate-cli/src/commands.rs:777-794 | Entering the identifier of a choice chooses it if and only if it does not read as a number, or reads as the number of a choice with that identifier |
| `PluginSetup.ChoosingByNumber` | crates/luminate-cli/src/commands.rs:777-794 | A number written in decimal chooses the choice at that place, counted from one, and is out of range if there is none |
| `PluginSetup.NumbersReadBack` | crates/luminate-cli/src/commands.rs:781-783 | A number of 64 bits reads back from its decimal notation, also with a plus sign or a leading zero, and a larger one does not read as a number |
| `PluginSetup.JsonAnswersExactly` | crates/luminate-cli/src/commands.rs:803-827 | A JSON line answers with a choice if and only if one was asked for and it is the choice field of the line; it confirms if and only if a confirmation was asked for and stated |
| `PluginSetup.NumericIdsAreShadowed` | crates/luminate-cli/src/commands.rs:777-794 | Choices whose identifiers are each other's numbers are swapped both ways, and one whose identifier reads as a larger number is refused |
| `Preferences.CommandsRefineMap` | crates/luminate-cli/src/commands.rs:950-1037 | Every sequence of set and clear commands on the list does what it means on a map, fails for the same reason, and keeps device entries unique |
| `Preferences.UnnamedPartsAreKept` | crates/luminate-cli/src/commands.rs:950-1027 | Whatever no command of a sequence names is unchanged: every other preference and the policy of every other device |
| `Preferences.LastCommandDecides` | crates/luminate-cli/src/commands.rs:950-1027 | After any successful sequence of commands, each preference and the policy of each device is what the last command naming it set, or absent if that cleared it |
| `Preferences.NamesReadBack` | crates/luminate-cli/src/commands.rs:1039-1071 | Each value is read from its own name and from no other text |
| `Preferences.CommandRefinesMap` | crates/luminate-cli/src/commands.rs:950-1037 | A single command does on the list what it means on the map |
| `Preferences.PutUpdatesMap` | crates/luminate-cli/src/commands.rs:970-983 | Updating the first entry of a device, or appending one, is a map update, for any list |
| `Preferences.WithoutRemovesFromMap` | crates/luminate-cli/src/commands.rs:1012-1020 | Retaining the entries of other devices is a map removal, repeated entries included |
| `Preferences.FirstEntryCounts` | crates/luminate-cli/src/commands.rs:970-974 | The list stands for the map from each of its devices to the policy of its first entry |
| `Preferences.UniqueExactly` | crates/luminate-cli/src/commands.rs:970-983 | Uniqueness as the proofs use it means that no two entries are for the same device |
| `Preferences.PutEntry` | crates/luminate-cli/src/commands.rs:970-983 | The search and update or push computes the specified list |
| `Preferences.RetainOthers` | crates/luminate-cli/src/commands.rs:1017-1019 | The filter loop keeps the other entries in order |
| `Preferences.SetPreference` | crates/luminate-cli/src/commands.rs:950-997 | Setting a preference has the specified effect or error, with the device checked before the value |
| `Preferences.ClearPreference` | crates/luminate-cli/src/commands.rs:999-1027 | Clearing a preference has the specified effect or error |
| `MediaPipes.Pipe.Read` | crates/libluminate/examples/audio_visualizer.rs:863-867 | A read delivers the next bytes of the stream into the buffer, at least one unless the stream is at its end, or fails |
| `MediaPipes.FillWindow` | crates/libluminate/examples/audio_visualizer.rs:858-868 | However reads are split, the buffer is filled with the next bytes, or with all that are left |
| `MediaPipes.PlayWindows` | crates/libluminate/examples/audio_visualizer.rs:857-885 | What is forwarded and published is a prefix of the windows of the stream, and all of them unless a read fails |
| `MediaPipes.PlayMedia` | crates/libluminate/examples/audio_visualizer.rs:847-892 | However reads are split, the player receives exactly the whole samples of the stream, unless a read fails |
| `MediaPipes.WindowsJoin` | crates/libluminate/examples/audio_visualizer.rs:857-885 | The windows joined are the whole samples of the stream, none lost between windows |
| `MediaPipes.WholeIsLongest` | crates/libluminate/examples/audio_visualizer.rs:872-876 | The whole samples are the longest prefix of the stream whose length is a multiple of the sample size |
| `MediaPipes.WindowsAreEnough` | crates/libluminate/examples/audio_visualizer.rs:857-885 | As many spectra are published as the length divided by the window size, rounded up |
| `MediaPipes.ReadFrame` | crates/libluminate/examples/bad_apple.rs:555-573 | However reads are split, a frame is filled, the end of the stream is reported between frames, and an error within one |
| `MediaPipes.PlayFrames` | crates/libluminate/examples/bad_apple.rs:743-774 | The uploads are the consecutive frames numbered from zero, up to saturation; without read failures all of them, with an error if and only if a partial frame remains |
| `MediaPipes.FramesCount` | crates/libluminate/examples/bad_apple.rs:743-774 | There are as many frames as the length divided by the frame size, rounded down |
| `MediaPipes.FramesAreConsecutive` | crates/libluminate/examples/bad_apple.rs:743-774 | Frame number i starts where the i frames before it end |
| `ColourReconstruction.RoundedDividendIsNearest` | crates/libluminate/examples/bad_apple.rs:622-628 | The quotient is the nearest integer, and ties are rounded away from zero |
| `ColourReconstruction.Luma` | crates/libluminate/examples/bad_apple.rs:618-620 | The luma is a byte, the weighted sum rounded to the nearest |
| `ColourReconstruction.WindowSize` | crates/libluminate/examples/bad_apple.rs:636-645 | Around a sample in the frame the window is exactly the part of the frame at most two columns and one row away, 6 to 15 pixels |
| `FramePixels.PixelCountsOnce` | crates/libluminate/examples/bad_apple.rs:634-660 | Each pixel at most two columns and one row from a sample counts once in the sums behind its colour; a pixel further away changes neither them nor the colour |
| `FramePixels.PixelsReadBack` | crates/libluminate/examples/bad_apple.rs:609-616 | A frame packs its pixels row by row, each in red, green, blue: every pixel reads back, and a frame ends with the last pixel |
| `ColourReconstruction.LumaIsPreserved` | crates/libluminate/examples/bad_apple.rs:634-673 | Without clamping, the luma of the result is that of the centre pixel, or 255 minus it when inverted; clamping at one end moves it only one way |
| `ColourReconstruction.LumaIsPreservedExactly` | crates/libluminate/examples/bad_apple.rs:630-673 | From the centre luma, the rounded average differences and the guards of the clamp: the luma survives if and only if what clamping takes off the weighted sum, less what rounding green added, is within half a step; for both directions of inversion |
| `ColourReconstruction.LumaSurvivesLittleClamping` | crates/libluminate/examples/bad_apple.rs:630-673 | The luma survives clamping that takes off at most 53 or adds at most 52 of 256, and is lost to clamping that takes off 204 or adds 203; the other way round when inverted |
| `ColourReconstruction.ClampingChangesLuma` | crates/libluminate/examples/bad_apple.rs:634-673 | A frame on which clamping changes the luma |
| `ColourReconstruction.UniformColourSurvives` | crates/libluminate/examples/bad_apple.rs:634-673 | A uniform colour keeps red and blue exactly and green within one, with the exact condition for green |
| `ColourReconstruction.UniformGreenCanChange` | crates/libluminate/examples/bad_apple.rs:634-673 | A uniform colour whose green changes by one |
| `ColourReconstruction.GreySurvives` | crates/libluminate/examples/bad_apple.rs:634-673 | On grey pixels, uniform or not, the centre pixel or its negative comes back exactly |
| `ColourReconstruction.WindowDifferences` | crates/libluminate/examples/bad_apple.rs:647-658 | The nested loops compute the sums over the window in 32-bit integers without overflow |
| `ColourReconstruction.ColourPixel` | crates/libluminate/examples/bad_apple.rs:634-673 | The whole computation in 32-bit integers never overflows and gives the specified colour, for every frame and sample |
| `HueSaturation.RgbRoundTrips` | crates/libluminate/examples/audio_visualizer.rs:469-498 | Every 8-bit colour converted to hue, saturation and value and back by the code's own inverse comes back exactly |
| `HueSaturation.LightRoundTripsExactly` | crates/libluminate/examples/audio_visualizer.rs:644-663 | Any light comes back if and only if its colour exceeds the float epsilon, or it is grey, or red is its only colour |
| `HueSaturation.HsvRoundTrips` | crates/libluminate/examples/audio_visualizer.rs:644-663 | Conversely any hue, saturation and value with enough colour come back from the light they give |
| `HueSaturation.HsxInRange` | crates/libluminate/examples/audio_visualizer.rs:469-498 | The hue is less than a turn, and the value and both saturations are between 0 and 1 |
| `HueSaturation.FullValueSaturation` | crates/libluminate/examples/audio_visualizer.rs:485-489 | Over exact reals: the saturation that goes with value is full if and only if some channel, but not every one, is dark; otherwise it stays clear of one |
| `HueSaturation.FullLightnessSaturation` | crates/libluminate/examples/audio_visualizer.rs:490-495 | Over exact reals only: the saturation that goes with lightness is full if and only if the colour is not grey and has a dark channel or one at its largest; otherwise it stays clear of one |
| `HueSaturation.HueIsNotFull` | crates/libluminate/examples/audio_visualizer.rs:469-484 | Over exact reals: the hue of an 8-bit colour stays clear of a full turn |
| `HueSaturation.LightnessDivisor` | crates/libluminate/examples/audio_visualizer.rs:490-495 | The divisor of the lightness saturation is at least the difference it divides, so it is not zero where it is used |
| `HueSaturation.HslGivesExtremes` | crates/libluminate/examples/audio_visualizer.rs:490-495 | Lightness and its saturation determine the largest and smallest channel if and only if the colour is absent or exceeds the float epsilon |
| `HueSaturation.ChannelRoundTrips` | crates/libluminate/examples/audio_visualizer.rs:666-668 | A byte survives as an intensity |
| `SinglePrecision.FloatHsxIsNear` | crates/libluminate/examples/audio_visualizer.rs:469-498 | For every 8-bit colour, hue, value and both saturations computed in 32-bit floats, every operation rounded to nearest even, are within 1/5000 of the exact ones |
| `SinglePrecision.FullLightnessSaturationIn32` | crates/libluminate/examples/audio_visualizer.rs:490-495 | In 32-bit floats the saturation that goes with lightness reaches one if and only if the colour is not grey and has a dark channel or one at its largest, except with a dark channel for odd brightest bytes from 65 to 127, and with one at its largest for darkest bytes from 128 divisible by four |
| `SinglePrecision.FullValueSaturationIn32` | crates/libluminate/examples/audio_visualizer.rs:485-489 | In 32-bit floats the saturation that goes with value reaches one if and only if some channel, but not every one, is dark |
| `SinglePrecision.FullComponentsIn32` | crates/libluminate/examples/audio_visualizer.rs:469-484 | In 32-bit floats the hue never reaches one, the value if and only if some channel is at its largest, and the lightness if and only if all are |
| `SinglePrecision.ChannelIs` | crates/libluminate/examples/audio_visualizer.rs:470-472 | The float of every byte as an intensity, in closed form |
| `SinglePrecision.FloatDivisorIsPositive` | crates/libluminate/examples/audio_visualizer.rs:490-495 | The divisor of the lightness saturation is positive in 32-bit floats wherever it is used |
| `ColourConversion.StaticColourFits` | crates/libluminate/examples/audio_visualizer.rs:469-575 | For a model chosen from capabilities, the colour is refused if and only if the model lists an emitter twice; otherwise every component, computed in 32-bit floats with every operation rounded, is within its advertised bits if and only if none of 25 to 31 bits reaches one, which is stated on the bytes of the colour |
| `ColourAccuracy.StaticColourIsAccurate` | crates/libluminate/examples/audio_visualizer.rs:469-575 | Every hue, saturation, value and lightness sent is within one and a half steps and a five-thousandth of its range of the exact place; every emitter gets the whole steps of its own primary, or of the weighted brightness for a white one |
| `ColourConversion.WideValueOvershoots` | crates/libluminate/examples/audio_visualizer.rs:506-508 | White on a target with 25 to 31 bits of value comes out one above the largest value |
| `ColourConversion.StaticColourIsMonotone` | crates/libluminate/examples/audio_visualizer.rs:510-575 | Brighter input makes no component of an additive or monochrome colour darker |
| `ColourConversion.ScaleInRange` | crates/libluminate/examples/audio_visualizer.rs:461-463 | A scaled channel is in range for every width, whether or not the product saturates |
| `ColourConversion.ScaleIsMonotone` | crates/libluminate/examples/audio_visualizer.rs:461-463 | Scaling is monotone, saturation included |
| `ColourConversion.FullScaleExactly` | crates/libluminate/examples/audio_visualizer.rs:453-463 | Full scale maps to full scale if and only if the width is at most 24 bits |
| `ColourConversion.WideChannelFallsShort` | crates/libluminate/examples/audio_visualizer.rs:453-463 | At 25 bits full scale comes out at about half the range |
| `ColourConversion.LuminanceOfGrey` | crates/libluminate/examples/audio_visualizer.rs:512-515 | The luminance of grey is its value, and luminance lies between any greys that bound the colour |
| `ColourConversion.ScaleUnitInRange` | crates/libluminate/examples/audio_visualizer.rs:506-508 | A 32-bit float scaled with the float of the largest value, the rounded product and the saturating cast is in range if and only if its width is not 25 to 31 bits or it is below one; it exceeds the range by at most one |
| `ColourConversion.ScaleUnitIsNear` | crates/libluminate/examples/audio_visualizer.rs:506-508 | With the product rounded to a float, it is within one step of its exact place in the range up to 24 bits, and one and a half beyond, where the largest value is rounded |
| `ColourConversion.FloatMaximumExactly` | crates/libluminate/examples/audio_visualizer.rs:506-508 | The largest value is a float up to 24 bits, and beyond them rounds to the power of two above it |
| `ColourConversion.FaultExactly` | crates/luminate-core/src/colour.rs:326-341 | Any values are refused if and only if one is not of an emitter or repeats an emitter, and the error is that of the first such value |
| `ColourConversion.ValidateAdditive` | crates/luminate-core/src/colour.rs:326-341 | The loop over the values finds the specified first fault |

## Left out

- Floating-point rounding in the simulation and in the round trips of hue, saturation and value, which are over exact reals with the float epsilon kept.
- Underflow and overflow of floats: exponents in `Floats` are not bounded, and no value of the conversion comes near their limits.
- The square root and the direction of an angle are given functions, assumed to be exact.
- The spectrum of a window and its smoothing, and the colours of the visualizer: a published spectrum is represented by its window.
- Failing writes to the player, child processes, timers, deadlines, sockets, terminals and input devices.
- The concrete key tables: names and positions of keys are parameters, and so is the query whether all keys are released.
- Names, owners, descriptions and kinds of collections, and `collections_containing`, which filters the results of resolution.
- The sorting of devices and of collection identifiers: the order is a parameter.
- The decoding of JSON answers and the trimming of lines: both are parameters of the terminal.
- Texts of error messages: errors keep their kind and what they are about, and the four kinds of invalid preference values are one error.
- Option parsing, listings, scenes, effects and management of the command line; the C interface; the plugins; the protocol and the daemon.
- PluginSetup.RunSetup: replies and lines are finite scripts; a run whose replies end first is reported as waiting, so that unending runs are covered by their prefixes.
- KeyTracking.HeldKeysAreObstacles: stated before leaving is asked for, since presses after that are ignored by design; `TraceTracksExactly` covers what follows.
