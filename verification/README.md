# A model of the Zenoh DSLR gateway in Dafny

This project models the hard parts of the repository and proves what they promise:

- the **parameter server** of `pico-ros-py`: an ordered store guarded by descriptors, six request handlers,
  the wire form of parameter values, the event stream, and dotted-prefix listing
  (`ParamTypes`, `Rcl`, `ParamListing`, `ParamStore`, `ParamRuns`, `ParamEvents`, `ParamAtomic`,
  `ParamServer`);
- the **hand-walked CDR gate** of the CI verifier, with an encoder written from section 9.3 of OMG CORBA 3.3
  Part 2 (alignment and strings) and section 10 of OMG DDSI-RTPS 2.2 (the encapsulation header), and the image
  publisher that feeds it (`Cdr`, `Downsample`);
- the **type-graph repair** that aliases undefined nested message types (`TypeRepair`, `TypeClosure`,
  `TypeExact`);
- the **capture protocol**: a lock taken by a service callback and released by a worker thread, an unguarded
  counter, and the heartbeat that reads it (`Capture`);
- the **rolling persistence buffer** (`Persistence`);
- the **override merging** that forces client mode (`Override`), the **node identity pinning** (`NodeIdentity`),
  and the **exposure pipeline** from parameter sets to the camera command line (`Exposure`).

`Wrappers`, `Sequences` and `Text` hold the shared result types, what is shared about lists and bytes, and the string
operations (split, join, strip).

## How it is built

What the source computes is written as functions over values; what it changes in place is written as classes
(`ParamServer`, `TypeRepair.Session`, `Persistence.PersistenceBuffer`, `Override.Environment`, `NodeIdentity.Node`,
`Exposure.ExposureParameterServer`) whose methods loop and mutate as the source does and are proved equal to those
functions. The theorems are about the functions, so they hold of the methods. The two concurrent protocols are step
systems: a theorem about them speaks of every sequence of actions the threads can take.

Automatic induction is switched off wherever it would apply: every induction is written out.

Where the code and its own documentation disagree, the model follows the code. `picoparams.py:454` announces that all
values are validated before any is committed; the code only checks that the names exist and then commits one by one,
without taking anything back. `ParamRuns.AtomicPartial` says what is left behind, and `ParamAtomic` compares the code
with a handler that does judge everything first: the replies are always the same, because no commit changes a later
verdict (`ValidateFirstAgrees`), and the stores are the same exactly unless the request stops halfway with a commit that
can be seen (`ValidateFirstExact`; `HalfwayExample` is such a request).

Three more properties hold only under a condition, which is proved to be the exact one:

- A subscriber that replays the events misses exactly the requests that commit something visible and publish nothing:
  `ParamEvents.InStepExact`, with `BadTagExample` and `ParamAtomic.HalfwayExample`. A commit is visible if the parameter
  could hold another value.
- Type repair closes the type graph exactly for complete answers of the registry, and a second call changes nothing
  exactly for repeatable ones: `TypeExact.ClosureExact`, `ReachExact` and `TwiceExact`. Answers are complete if what comes
  along with a registered name refers only to what registering that name brings (or leads to visiting) or to what cannot
  be had, and if every canonical name that comes along could have been asked for. `LooseFails` and `ShadowedFails` are
  registries without the first and without the second.
- Nodes have distinct identities exactly if no node is constructed while another has the allocator pinned, since
  constructors allocate outside the lock: `NodeIdentity.DistinctExact`.

## Assumptions

- A publish appends to a log. An exception while an event is published is swallowed and leaves no event.
- A well-declared store is one whose values satisfy their descriptors, as `declare` leaves to its callers.
- Parameter values are well typed, and no descriptor object is shared between two parameters (`describe` writes the
  requested name into the live descriptor). Range bounds and doubles are exact reals.
- UTF-8 decodability is a predicate on byte sequences, and CDR text is its bytes.
- The scale of the image publisher is an exact rational; a picture is a width, a height and three bytes a pixel.
- A call to the type registry adds definitions or fails, and every name that is ever mentioned (for the exact
  conditions: or defined) comes from a finite set. For the theorems about closure and a second call, in addition: the
  registry always answers the same for the same name, and no type name is such that replacing `/srv/msg/` in it leaves a
  new occurrence behind (`TypeRepair.SettlesExact`), which holds of all ROS type names.
- Worker threads start, and a put that raises has not delivered. A factory call is the only holder of its lock.
- The SDK's own allocator of node identities is a counter.
- File times increase strictly from write to write, capture ids are never reused, and nothing else writes to the
  buffer's directory.
- `str(value)` is any function from values to text. Reading one parameter is atomic; requests may be handled between
  one parameter and the next.
- The override grammar is the one `zenoh_native_session.py:25-27` describes.

## Model

| member | source | states |
|---|---|---|
| Text.JoinSplit | pi_runtime/zenoh_dslr_pi_runtime/zenoh_native_session.py:67-76 | joining undoes splitting, and no part holds the separator |
| Text.SplitJoin | pi_runtime/zenoh_dslr_pi_runtime/zenoh_native_session.py:67-76 | splitting undoes joining for parts that do not hold the separator |
| Text.PartsArePrefix | pico-ros-py/src/pico_ros_py/picoparams.py:303-304 | joining the first parts of a dotted name gives what stands before one of its dots |
| Text.PrefixIsParts | pico-ros-py/src/pico_ros_py/picoparams.py:303-304 | whatever stands before a dot of a name is the join of its first parts |
| Text.StripExact | pi_runtime/zenoh_dslr_pi_runtime/exposure_params.py:104 | stripping leaves what stands between the spaces at both ends, and leaves trimmed text alone |
| Rcl.DecodeEncode | pico-ros-py/src/pico_ros_py/_rcl.py:46-104 | decoding an encoded value of any of the ten types gives it back; encoding fails exactly on an integer array beyond 64 bits |
| Rcl.EncodeDecode | pico-ros-py/src/pico_ros_py/_rcl.py:46-104 | encoding a decoded message gives its canonical form, with the fields its tag does not select cleared; decoding fails exactly on tags outside 0..9 |
| ParamListing.NamesUnder | pico-ros-py/src/pico_ros_py/picoparams.py:286-293 | the names equal to the prefix or below it, all names for no prefix or an empty one |
| ParamListing.NamesUnderInOrder | pico-ros-py/src/pico_ros_py/picoparams.py:286-293 | the names under a prefix come in declaration order |
| ParamListing.DedupExact | pico-ros-py/src/pico_ros_py/picoparams.py:394-407 | dropping repetitions keeps each element once, the same elements, ordered by first occurrence |
| ParamListing.InSubPrefixes | pico-ros-py/src/pico_ros_py/picoparams.py:298-308 | p is a proper dotted prefix of a name iff `p + "."` is a string prefix of it |
| ParamListing.ListedNamesExact | pico-ros-py/src/pico_ros_py/picoparams.py:394-407 | the names that go into a list reply are, once each, exactly those matching some requested prefix, in the order in which they are first seen under the prefixes |
| ParamListing.ListedPrefixesExact | pico-ros-py/src/pico_ros_py/picoparams.py:298-308 | the sub-prefixes that go into a list reply: p is one, once, iff `p + "."` starts a listed name; the sub-prefixes come in the order in which the names first show them |
| ParamListing.SeenNamesExact | pico-ros-py/src/pico_ros_py/picoparams.py:394-407 | the order in which names are first seen: all names in declaration order without prefixes, otherwise the names under each prefix, one prefix after the other |
| ParamListing.SubPrefixesGrow | pico-ros-py/src/pico_ros_py/picoparams.py:298-308 | the sub-prefixes of a name come from the shortest to the longest |
| ParamListing.ReportedPrefixListsSomething | pico-ros-py/src/pico_ros_py/picoparams.py:394-407 | asking with a listed sub-prefix lists at least one name below it |
| ParamStore.VerdictExact | pico-ros-py/src/pico_ros_py/picoparams.py:253-284 | the verdict, a function of descriptor and value alone, is success iff the parameter is writable and the value has the declared type (unless dynamic) and lies in the range |
| ParamStore.VerdictReason | pico-ros-py/src/pico_ros_py/picoparams.py:253-284 | which objection is reported, read-only before type before range, and the types or the range it carries |
| ParamStore.Store.DeclareKeepsValid | pico-ros-py/src/pico_ros_py/picoparams.py:205-232 | declaring keeps one entry per name, the descriptors named after their keys, and each name once in declaration order; declaring again keeps the place of a name |
| ParamRuns.ClassifyExact | pico-ros-py/src/pico_ros_py/picoparams.py:481-493 | one parameter is aborted iff its name is declared and its tag is bad, committed iff declared, decodable and accepted, and refused otherwise |
| ParamRuns.SetResultsExact | pico-ros-py/src/pico_ros_py/picoparams.py:446-494 | a request that is not aborted is answered parameter by parameter, in order, each as if it stood alone |
| ParamRuns.SetRaises | pico-ros-py/src/pico_ros_py/picoparams.py:481-494 | an aborted request is answered with the error of the first declared parameter whose value cannot be decoded |
| ParamRuns.ApplySetsExact | pico-ros-py/src/pico_ros_py/picoparams.py:478-494 | set_parameters commits, left to right, exactly the accepted values before the first undecodable one; a refusal does not stop it; it aborts iff some declared name has a bad type tag |
| ParamRuns.PreviewExact | pico-ros-py/src/pico_ros_py/picoparams.py:452-467 | the first loop of an atomic set passes iff every value decodes and every name is declared |
| ParamRuns.CommitAllExact | pico-ros-py/src/pico_ros_py/picoparams.py:469-474 | the second loop commits the longest accepted prefix and answers with the first refusal |
| ParamRuns.AtomicSuccess | pico-ros-py/src/pico_ros_py/picoparams.py:452-476 | an atomic set succeeds iff every name is declared and accepts its value; then the store is the left-to-right update and one event is published |
| ParamRuns.AtomicNotPreviewable | pico-ros-py/src/pico_ros_py/picoparams.py:456-467 | an atomic set with a missing name or a bad tag changes nothing and reports the first offender |
| ParamRuns.AtomicPartial | pico-ros-py/src/pico_ros_py/picoparams.py:468-474 | any other refused atomic set has committed exactly the accepted prefix and published nothing |
| ParamRuns.CommittedHalfway | pico-ros-py/src/pico_ros_py/picoparams.py:468-474 | an unsuccessful atomic set commits something iff it passes the preview and its first value is accepted |
| ParamRuns.HandleExact | pico-ros-py/src/pico_ros_py/picoparams.py:394-504 | the whole effect of any request on store, hook and event log, read off descriptors and request |
| ParamRuns.RunIsReplay | pico-ros-py/src/pico_ros_py/picoparams.py:446-494 | after any run the store is the declared one with all accepted assignments applied in order, and the hook was called with exactly those |
| ParamRuns.RunInvariant | pico-ros-py/src/pico_ros_py/picoparams.py:205-284 | in every reachable state names, order and descriptors are the declared ones, read-only values are the declared values, and values satisfy their descriptors if they did at first |
| ParamRuns.CurrentIsStored | pico-ros-py/src/pico_ros_py/picoparams.py:234-245 | the stored value of a name is the last one accepted for it, or the declared one |
| ParamRuns.GetAfterRun | pico-ros-py/src/pico_ros_py/picoparams.py:409-419 | over any run, get_parameters answers, through the wire form, with the last accepted value of each declared name and with not-set for others |
| ParamRuns.GetRaises | pico-ros-py/src/pico_ros_py/picoparams.py:409-419 | over any run, get_parameters fails exactly if one of the values asked for is an integer array that does not fit the wire |
| ParamRuns.ListAfterRun | pico-ros-py/src/pico_ros_py/picoparams.py:394-407 | over any run, the names of a list reply are the declared ones that equal some requested prefix or start with it and a dot (all for none or an empty one), and p is one of its sub-prefixes iff `p + "."` starts one of its names; each once, in first-seen order |
| ParamRuns.ListAgainAfterRun | pico-ros-py/src/pico_ros_py/picoparams.py:394-407 | over any run, asking again with a sub-prefix of a reply lists at least one name below it |
| ParamRuns.TypesAfterRun | pico-ros-py/src/pico_ros_py/picoparams.py:421-429 | over any run, get_parameter_types answers with the declared type, whatever values were set meanwhile, and 0 for other names |
| ParamRuns.DescribeAfterRun | pico-ros-py/src/pico_ros_py/picoparams.py:431-444 | over any run, describe_parameters answers with the declared descriptor, or with one that is blank but for the name asked for |
| ParamEvents.LossyExact | pico-ros-py/src/pico_ros_py/picoparams.py:452-494 | a request commits without publishing iff a bad tag or a refusal stands behind a commit; any other request publishes exactly what it commits |
| ParamEvents.AnotherValue | pico-ros-py/src/pico_ros_py/picoparams.py:253-284 | every descriptor that allows a value and is not pinned to it (not-set, or a range of one number) allows a second one |
| ParamEvents.VisibleChangesSome | pico-ros-py/src/pico_ros_py/picoparams.py:266 | assignments to a parameter that could hold another value change some well-declared store with the same descriptors |
| ParamEvents.InvisibleChangesNothing | pico-ros-py/src/pico_ros_py/picoparams.py:266 | assignments only to parameters that can hold one value change no well-declared store |
| ParamEvents.FollowedInStep | pico-ros-py/src/pico_ros_py/picoparams.py:452-504 | a request that is not lossy keeps a replaying subscriber in step, whatever is stored |
| ParamEvents.InStepExact | pico-ros-py/src/pico_ros_py/picoparams.py:452-504 | a replaying subscriber stays in step over a request, for all well-declared stores with these descriptors, iff the request is not both lossy and visible |
| ParamEvents.OutOfStep | pico-ros-py/src/pico_ros_py/picoparams.py:468-494 | for every request that is lossy and visible there is a well-declared store over which the subscriber is out of step afterwards |
| ParamEvents.EventReplay | pico-ros-py/src/pico_ros_py/picoparams.py:496-504 | over any run whose requests are followed (or, from a well-declared store, do not mislead), replaying the decoded events over the declared store gives the current store |
| ParamEvents.BadTagExample | pico-ros-py/src/pico_ros_py/picoparams.py:478-494 | a set_parameters request on a well-declared server that keeps its first value, aborts on the bad tag of the second, and publishes nothing |
| ParamEvents.BadTagMisleads | pico-ros-py/src/pico_ros_py/picoparams.py:478-494 | that request is lossy and visible |
| ParamAtomic.JudgeAllExact | pico-ros-py/src/pico_ros_py/picoparams.py:468-474 | judging all assignments before any is made gives the verdict the commits run into |
| ParamAtomic.ValidateFirstAgrees | pico-ros-py/src/pico_ros_py/picoparams.py:452-476 | a handler that judges everything first and then commits all or nothing gives the same reply; on success the same server, otherwise the server it started from |
| ParamAtomic.ValidateFirstExact | pico-ros-py/src/pico_ros_py/picoparams.py:452-476 | it leaves the same store for all well-declared stores with these descriptors iff the request does not stop halfway with a visible commit |
| ParamAtomic.HalfwayExample | pico-ros-py/src/pico_ros_py/picoparams.py:452-476 | a request of two integers whose first value is kept although the second is refused |
| ParamServer.DictParameterBackend.Declare | pico-ros-py/src/pico_ros_py/picoparams.py:205-232 | declares with the caller's descriptor, renamed and typed if untyped, or with a new one; other parameters are untouched |
| ParamServer.DictParameterBackend.Set | pico-ros-py/src/pico_ros_py/picoparams.py:253-272 | answers with the verdict; stores the value and calls the hook iff it is accepted, and changes nothing else |
| ParamServer.DictParameterBackend.Prefixes | pico-ros-py/src/pico_ros_py/picoparams.py:298-308 | the loops give each sub-prefix of the matching names once, in first-seen order |
| ParamServer.ParameterServer.ApplyEach | pico-ros-py/src/pico_ros_py/picoparams.py:478-494 | the loop over live entries has the results, changes and final store of the fold |
| ParamServer.ParameterServer.HandleSetParameters | pico-ros-py/src/pico_ros_py/picoparams.py:446-494 | the handler over live objects is the set_parameters function of the state |
| ParamServer.ParameterServer.PreviewParameters | pico-ros-py/src/pico_ros_py/picoparams.py:456-467 | the first loop of the atomic handler, which changes nothing |
| ParamServer.ParameterServer.CommitPreviews | pico-ros-py/src/pico_ros_py/picoparams.py:468-474 | the second loop of the atomic handler, stopping at the first refusal |
| ParamServer.ParameterServer.HandleSetParametersAtomically | pico-ros-py/src/pico_ros_py/picoparams.py:452-476 | the handler over live objects is the atomic function of the state |
| ParamServer.ParameterServer.HandleGetParameters | pico-ros-py/src/pico_ros_py/picoparams.py:409-419 | values of declared names, not-set for others; an unencodable value aborts the reply |
| ParamServer.ParameterServer.HandleGetParameterTypes | pico-ros-py/src/pico_ros_py/picoparams.py:421-429 | type tags of declared names, 0 for others |
| ParamServer.ParameterServer.HandleDescribeParameters | pico-ros-py/src/pico_ros_py/picoparams.py:431-444 | writing the requested names into live descriptors leaves the store as it was and gives the right answers, repeated names included |
| ParamServer.ParameterServer.HandleListParameters | pico-ros-py/src/pico_ros_py/picoparams.py:394-407 | the loop over prefixes gives the listing function's reply |
| ParamServer.ParameterServer.EmitEvent | pico-ros-py/src/pico_ros_py/picoparams.py:496-504 | appends one event with the changes, or nothing without a publisher or if encoding fails |
| Cdr.Align4Exact | ci/verifier/cdr_assert.py:145-149 | aligning to four gives the first multiple of four at or after the cursor |
| Cdr.BytesOfU32 | ci/verifier/cdr_assert.py:156 | four little-endian bytes read back as the number they encode |
| Cdr.LittleEndian | ci/verifier/cdr_assert.py:156 | the number four bytes stand for, least significant byte first |
| Cdr.TextExact | ci/verifier/cdr_assert.py:162-163 | bytes are read as a text iff they are the text and a null, or the text itself if it does not end in a null |
| Cdr.ReadStringReports | ci/verifier/cdr_assert.py:152-164 | a string that cannot be read is short iff its length is there and runs past the end, and malformed otherwise |
| Cdr.ReadString | ci/verifier/cdr_assert.py:152-164 | a string that is read ends behind its start and inside the buffer |
| Cdr.Take | ci/verifier/cdr_assert.py:194-199 | a number that is read ends behind its start and inside the buffer |
| Cdr.ReadCdrString | ci/verifier/cdr_assert.py:152-164 | the cursor version of reading a string |
| Cdr.WalkImage | ci/verifier/cdr_assert.py:187-217 | the cursor moving from field to field decodes what the walk function decodes, with the same failures |
| Cdr.AssertImage | ci/verifier/cdr_assert.py:167-243 | the gate's checks in their order give the verdict of the gate function |
| Cdr.AssertString | ci/verifier/cdr_assert.py:126-142 | the String gate's checks in their order |
| Cdr.RenderIsLaid | ci/verifier/cdr_assert.py:187-217 | a rendered body has every field at its aligned place |
| Cdr.LaidIsRender | ci/verifier/cdr_assert.py:187-217 | a body with every field at its place is the rendering of those fields |
| Cdr.WalkRender | ci/verifier/cdr_assert.py:187-217 | walking a rendered body recovers its parts, for all string lengths and padding bytes |
| Cdr.Parts | ci/verifier/cdr_assert.py:187-228 | every body the walk gets through, and that holds the data it declares, is the rendering of what was decoded |
| Cdr.GateExact | ci/verifier/cdr_assert.py:167-243 | a buffer is accepted iff it is the little-endian header followed by a rendering that meets the expectation; trailing bytes are allowed |
| Cdr.HeaderReported | ci/verifier/cdr_assert.py:185-186 | a bad header is reported iff the first four bytes are not 00 01 00 00 |
| Cdr.ShortDataReported | ci/verifier/cdr_assert.py:224-228 | once the fields are decoded, missing data are reported iff the buffer ends before them, whatever else is wrong |
| Cdr.TruncationRejected | ci/verifier/cdr_assert.py:218-228 | no strict prefix of a message is accepted, whatever is expected |
| Cdr.WalkEncode | ci/verifier/cdr_assert.py:167-217 | walking an encoded Image recovers all its fields and its data |
| Cdr.StampEncode | ci/verifier/cdr_assert.py:190-192 | the walk skips the stamp of an encoded Image: seconds in two's complement, then nanoseconds |
| Cdr.GateEncode | ci/verifier/cdr_assert.py:233-242 | an encoded Image passes iff its size, step and encoding are the expected ones and its data are step times height |
| Cdr.GateReports | ci/verifier/cdr_assert.py:233-242 | an encoded Image that does not pass is refused for the first that differs of width, height, encoding, step and data length |
| Cdr.GateStringExact | ci/verifier/cdr_assert.py:126-142 | a String passes iff the buffer starts with header, length, text and terminator, and the text with the expected one |
| Cdr.GateStringReports | ci/verifier/cdr_assert.py:132-141 | what is reported of any bytes behind a header and a length: too few, no terminator, not UTF-8, another text, in this order |
| Downsample.Shrink | pi_runtime/zenoh_dslr_pi_runtime/ros2_image_publisher.py:83-103 | the stepwise reduction of the scale gives the fitted size |
| Downsample.FitExact | pi_runtime/zenoh_dslr_pi_runtime/ros2_image_publisher.py:83-103 | the fitted size in whole numbers, for every image and limits: the tighter limit is met exactly, the other side is scaled by it and rounded down but not to nothing; an image within the limits, or empty, is left alone |
| Downsample.FitBounds | pi_runtime/zenoh_dslr_pi_runtime/ros2_image_publisher.py:83-103 | the result fits every enabled limit, is no larger than the source and no smaller than 1x1 |
| Downsample.AspectKept | pi_runtime/zenoh_dslr_pi_runtime/ros2_image_publisher.py:96-102 | new width times height and new height times width differ by less than width plus height |
| Downsample.LimitNearlyReached | pi_runtime/zenoh_dslr_pi_runtime/ros2_image_publisher.py:95-102 | an image that is shrunk comes within a pixel of one of the enabled limits |
| Downsample.ShrinksExactly | pi_runtime/zenoh_dslr_pi_runtime/ros2_image_publisher.py:89-98 | an image is left alone iff it is within every enabled limit |
| Downsample.FitIsFixed | pi_runtime/zenoh_dslr_pi_runtime/ros2_image_publisher.py:83-103 | shrinking again changes nothing |
| Downsample.MessagePassesGate | pi_runtime/zenoh_dslr_pi_runtime/ros2_image_publisher.py:115-134 | a published picture passes the CI gate iff the gate expects its size, rows of three bytes a pixel, and rgb8 |
| Downsample.MessageDecoded | pi_runtime/zenoh_dslr_pi_runtime/ros2_image_publisher.py:115-134 | decoding a published picture gives its frame id, size, rgb8, little-endian rows of three bytes a pixel, and all its pixels |
| Downsample.PublishedPassesGate | pi_runtime/zenoh_dslr_pi_runtime/ros2_image_publisher.py:105-134 | a frame that is shrunk, published and encoded passes the CI gate iff the gate expects the fitted size, rows of three times that width, and rgb8 |
| TypeRepair.FirstReplaced | pico-ros-py/src/pico_ros_py/picoserdes.py:73 | the canonical name replaces the first shadow infix, and then those behind it |
| TypeRepair.NothingToReplace | pico-ros-py/src/pico_ros_py/picoserdes.py:73 | a name without the shadow infix is its own canonical name |
| TypeRepair.SettlesExact | pico-ros-py/src/pico_ros_py/picoserdes.py:73 | replacing the shadow infix is idempotent on a name iff no new occurrence arises |
| TypeRepair.RefsExact | pico-ros-py/src/pico_ros_py/picoserdes.py:30-43 | a definition refers to a name iff the name is the type of one of its fields, alone or inside arrays and sequences of any depth |
| TypeRepair.RefsInOrder | pico-ros-py/src/pico_ros_py/picoserdes.py:59-60 | the references come field by field, one for each field that has one |
| TypeRepair.RegisterAliasExtends | pico-ros-py/src/pico_ros_py/picoserdes.py:69-83 | aliasing changes no definition, and a new alias equals its canonical definition |
| TypeRepair.AliasRegistered | pico-ros-py/src/pico_ros_py/picoserdes.py:69-83 | a new alias takes over the message class of its canonical name, and it alone is registered, under its own name, and without an alias nothing is; the registry is asked once if neither name is defined, and otherwise not at all |
| TypeRepair.Ensure | pico-ros-py/src/pico_ros_py/picoserdes.py:45-66 | the repair is defined on every finite type graph, cyclic ones included, and changes no definition |
| TypeRepair.MissingShrinks | pico-ros-py/src/pico_ros_py/picoserdes.py:59-66 | the measure: a new definition leaves fewer names undefined |
| TypeRepair.Session.AddAlias | pico-ros-py/src/pico_ros_py/picoserdes.py:69-83 | the method updates definitions, classes and registered names as the function says, or gives up when registering fails |
| TypeRepair.Session.EnsureNestedTypes | pico-ros-py/src/pico_ros_py/picoserdes.py:45-66 | the recursive loops terminate for any registry over a finite universe and leave the session as the function says |
| TypeClosure.WalkInduction | pico-ros-py/src/pico_ros_py/picoserdes.py:45-66 | the nested loops and recursion visit references as a list of what is still to visit: a claim that one visit keeps holds of the whole walk |
| TypeClosure.RepairTraced | pico-ros-py/src/pico_ros_py/picoserdes.py:45-66 | the repair is a sequence of visits, each one alias step, that leaves out no reference of the root and none that came up on the way |
| TypeClosure.RepairExplained | pico-ros-py/src/pico_ros_py/picoserdes.py:69-83 | for any registry: no definition changes, every name registered as an alias has the definition of its canonical name, and every other new definition was answered at one of the visits; an alias stays registered as itself, with the message class its canonical name had at the visit |
| TypeClosure.RepairPursues | pico-ros-py/src/pico_ros_py/picoserdes.py:45-66 | for any registry: every name in a field of the root, or of anything aliased on the way, is defined afterwards or was asked for in vain at one of the visits |
| TypeClosure.ResolvedExact | pico-ros-py/src/pico_ros_py/picoserdes.py:69-83 | a reference counts as settled iff it is defined or another attempt to alias it leaves it undefined |
| TypeClosure.IdleExact | pico-ros-py/src/pico_ros_py/picoserdes.py:69-83 | visiting a reference changes nothing iff it is defined, or it cannot be and its canonical name has been asked for |
| TypeClosure.RepairCloses | pico-ros-py/src/pico_ros_py/picoserdes.py:45-66 | for complete answers: if all other types were closed, afterwards every reference of every definition is defined or cannot be |
| TypeClosure.ReachableResolved | pico-ros-py/src/pico_ros_py/picoserdes.py:48-57 | for complete answers: every reference reachable from the root is defined or cannot be |
| TypeClosure.RepairTwice | pico-ros-py/src/pico_ros_py/picoserdes.py:45-66 | for repeatable answers a second call changes nothing, whatever else is open |
| TypeClosure.SelfContainedSuffices | pico-ros-py/src/pico_ros_py/picoserdes.py:52-56 | answers that bring what they refer to, of names that can each be asked for, are complete and repeatable |
| TypeExact.NotCarried | pico-ros-py/src/pico_ros_py/picoserdes.py:61-64 | if something that comes along refers to what is not brought and could be had, some repair leaves it undefined and reachable |
| TypeExact.NotStable | pico-ros-py/src/pico_ros_py/picoserdes.py:69-83 | if a canonical name comes along that could not be asked for, some repair opens a closed type that refers to its shadow name |
| TypeExact.NotFinal | pico-ros-py/src/pico_ros_py/picoserdes.py:61-65 | if asking for that shadow name does not bring what it came along with, some second call defines it |
| TypeExact.UnsettledFails | pico-ros-py/src/pico_ros_py/picoserdes.py:73 | why names have to settle: any name in which replacing leaves a shadow infix, and that the registry does not bring, makes closure and idempotence fail for some session |
| TypeExact.ClosureExact | pico-ros-py/src/pico_ros_py/picoserdes.py:45-66 | repairing a root closes every store that is closed elsewhere, for all universes, sessions and roots, iff the answers are complete |
| TypeExact.ReachExact | pico-ros-py/src/pico_ros_py/picoserdes.py:48-57 | every reference reachable from the root is settled afterwards, for all of these, iff the answers are complete |
| TypeExact.TwiceExact | pico-ros-py/src/pico_ros_py/picoserdes.py:45-66 | a second call changes nothing, for all universes, sessions and roots, iff the answers are repeatable |
| TypeExact.LooseFails | pico-ros-py/src/pico_ros_py/picoserdes.py:61-64 | a registry whose answers do not bring what they refer to: closure fails, idempotence holds |
| TypeExact.ShadowedFails | pico-ros-py/src/pico_ros_py/picoserdes.py:69-83 | a registry that brings a name it cannot be asked for: closure and idempotence both fail |
| TypeExact.ShadowedRun | pico-ros-py/src/pico_ros_py/picoserdes.py:61-83 | the run that shows it: the first call leaves a shadow name undefined beside its defined canonical name, the second call defines it |
| Capture.AlwaysInv | pi_runtime/zenoh_dslr_pi_runtime/runtime.py:101-177 | every reachable state keeps the protocol's invariant |
| Capture.LockMeansOneJob | pi_runtime/zenoh_dslr_pi_runtime/runtime.py:101-177 | the lock is held iff exactly one accepted job is unfinished, and there is never another |
| Capture.AcceptsMatchReleases | pi_runtime/zenoh_dslr_pi_runtime/runtime.py:139-144 | accepts exceed releases by one while the lock is held and by none when it is free, whatever was raised |
| Capture.RequestsAnswered | pi_runtime/zenoh_dslr_pi_runtime/runtime.py:142-177 | every request is accepted with a job of its own or refused, and refused iff a job is unfinished |
| Capture.ReleasedOnce | pi_runtime/zenoh_dslr_pi_runtime/runtime.py:139-140 | each job releases exactly once, as its last step, and never a free lock |
| Capture.NoLostUpdate | pi_runtime/zenoh_dslr_pi_runtime/runtime.py:111-117 | the counter lags by at most the put in progress and equals the number of deliveries whenever the lock is free |
| Capture.StepsCounted | pi_runtime/zenoh_dslr_pi_runtime/runtime.py:111-117 | over any interleaving the counter is the number of increments although reading and writing it are separate steps, and the puts are counted likewise |
| Capture.UpdateLostWithoutLock | pi_runtime/zenoh_dslr_pi_runtime/runtime.py:117 | two jobs between the two steps would count once for two frames: this is what the lock keeps out |
| Capture.HeartbeatView | pi_runtime/zenoh_dslr_pi_runtime/heartbeat.py:205-226 | over any interleaving the i-th heartbeat carries the number i and the count of the moment it was built: the increments so far, at most one behind the puts so far and level with them when no capture is in progress; counts never decrease |
| Capture.JobGoesOn | pi_runtime/zenoh_dslr_pi_runtime/runtime.py:102-140 | the job holding the lock always has a step, every step of it brings the release nearer, and no other step delays it |
| Capture.LockIsFreed | pi_runtime/zenoh_dslr_pi_runtime/runtime.py:102-140 | from every reachable state the lock is at most seven steps from being free |
| Capture.CaptureGoesThrough | pi_runtime/zenoh_dslr_pi_runtime/runtime.py:101-140 | whenever the lock is free, the eight steps of a capture deliver one frame, count it and free the lock |
| Capture.FailureFreesLock | pi_runtime/zenoh_dslr_pi_runtime/runtime.py:137-140 | what is raised while capturing, putting or publishing frees the lock and neither delivers nor counts |
| Persistence.KeepExact | pi_runtime/zenoh_dslr_pi_runtime/persistence.py:25-33 | pruning keeps the longest suffix, oldest first, that fits |
| Persistence.KeepForgets | pi_runtime/zenoh_dslr_pi_runtime/persistence.py:15-33 | what was pruned before makes no difference to what is kept later |
| Persistence.NewFileSurvives | pi_runtime/zenoh_dslr_pi_runtime/persistence.py:15-33 | the file just written survives iff its own size fits; otherwise the directory is emptied |
| Persistence.RollingIsOneShot | pi_runtime/zenoh_dslr_pi_runtime/persistence.py:15-33 | pruning after every write gives what pruning the whole history once would give |
| Persistence.RollingFromEmpty | pi_runtime/zenoh_dslr_pi_runtime/persistence.py:15-33 | from an empty directory, exactly the longest suffix of the history whose sizes fit is kept |
| Persistence.PersistedDistinct | pi_runtime/zenoh_dslr_pi_runtime/persistence.py:20-23 | writing over a file that is there does not list it twice |
| Persistence.NamesDistinct | pi_runtime/zenoh_dslr_pi_runtime/persistence.py:15-20 | files of captures with different ids have different names, whatever their encodings, as the theorems on histories ask |
| Persistence.SuffixExact | pi_runtime/zenoh_dslr_pi_runtime/persistence.py:35-42 | the suffix of each known encoding, and the one of all others |
| Persistence.SortFindsOrder | pi_runtime/zenoh_dslr_pi_runtime/persistence.py:26-27 | in whatever order the directory is read, sorting by time lists the files as they were written |
| Persistence.PersistenceBuffer.Persist | pi_runtime/zenoh_dslr_pi_runtime/persistence.py:15-23 | writes under the id and suffix, prunes, and returns the path; does nothing when disabled |
| Persistence.PersistenceBuffer.Prune | pi_runtime/zenoh_dslr_pi_runtime/persistence.py:25-33 | the loop that deletes the oldest files leaves the longest suffix that fits |
| Override.ForceNativeClientMode | pi_runtime/zenoh_dslr_pi_runtime/zenoh_native_session.py:51-79 | writes the merged override, and only that, into the environment |
| Override.ForeignSegments | pi_runtime/zenoh_dslr_pi_runtime/zenoh_native_session.py:66-74 | the loop keeps the foreign segments in order |
| Override.SegmentsJoin | pi_runtime/zenoh_dslr_pi_runtime/zenoh_native_session.py:67-76 | reading segments undoes writing them |
| Override.SegmentsExact | pi_runtime/zenoh_dslr_pi_runtime/zenoh_native_session.py:67-70 | a semicolon ends a segment, which is trimmed and counts unless it is blank |
| Override.EntryExact | pi_runtime/zenoh_dslr_pi_runtime/zenoh_native_session.py:71 | the first equals sign divides a segment into path and value, whatever else is in it; both are trimmed |
| Override.MergedSegments | pi_runtime/zenoh_dslr_pi_runtime/zenoh_native_session.py:64-76 | the merged override reads as the foreign segments, in order, and the owned ones behind them |
| Override.MergeMeaning | pi_runtime/zenoh_dslr_pi_runtime/zenoh_native_session.py:51-79 | the override means what it meant, except that the owned paths have the forced values |
| Override.MergeTwice | pi_runtime/zenoh_dslr_pi_runtime/zenoh_native_session.py:54-57 | merging twice is merging once |
| Override.OwnedQualifies | pi_runtime/zenoh_dslr_pi_runtime/zenoh_native_session.py:39-48 | the three owned segments can be written and read back, so the theorems apply to them |
| Override.OwnedForces | pi_runtime/zenoh_dslr_pi_runtime/zenoh_native_session.py:39-48 | they force client mode and switch off both kinds of scouting |
| Override.ClientModeForced | pi_runtime/zenoh_dslr_pi_runtime/zenoh_native_session.py:51-79 | whatever was configured, client mode without scouting is configured afterwards, and everything else as before |
| NodeIdentity.AlwaysInv | pico-ros-py/src/pico_ros_py/picoros.py:65-80 | every reachable state keeps the allocator, endpoint and id invariants |
| NodeIdentity.RestoredWhenFree | pico-ros-py/src/pico_ros_py/picoros.py:65-80 | the original allocator is in place whenever the lock is free, also after constructors that raised |
| NodeIdentity.EndpointsCarryNode | pico-ros-py/src/pico_ros_py/picoros.py:137-231 | every endpoint carries the id of the node it was created through |
| NodeIdentity.DistinctExact | pico-ros-py/src/pico_ros_py/picoros.py:107-112 | nodes have distinct ids iff no constructor ran while another node had the allocator pinned |
| NodeIdentity.IdsConsecutive | pico-ros-py/src/pico_ros_py/picoros.py:65-112 | then the ids are consecutive: no factory call consumes one |
| NodeIdentity.IntrusionPossible | pico-ros-py/src/pico_ros_py/picoros.py:107-112 | such an interleaving exists |
| NodeIdentity.CallGoesOn | pico-ros-py/src/pico_ros_py/picoros.py:137-231 | a call that holds the lock can always go on and ends after at most four steps of its own |
| NodeIdentity.CallExact | pico-ros-py/src/pico_ros_py/picoros.py:65-80 | the five steps of an undisturbed factory call consume no id, restore the allocator, and add one endpoint under the node's id unless the constructor raises |
| NodeIdentity.Node.Create | pico-ros-py/src/pico_ros_py/picoros.py:137-151 | the factory method takes the session through exactly those five steps |
| Exposure.SettingsExact | pi_runtime/zenoh_dslr_pi_runtime/exposure_params.py:91-107 | the settings are those of exactly the names that apply at the moment each is read, each at its declared place |
| Exposure.ExposureParameterServer.Start | pi_runtime/zenoh_dslr_pi_runtime/exposure_params.py:52-81 | declares the configured names in order as dynamically typed strings and installs the hook |
| Exposure.StartedNames | pi_runtime/zenoh_dslr_pi_runtime/exposure_params.py:52-64 | the store declares the configured names, once each and in order |
| Exposure.StartedAt | pi_runtime/zenoh_dslr_pi_runtime/exposure_params.py:52-64 | every configured name is declared with its configured text, as a writable, dynamically typed string |
| Exposure.AnyValueAccepted | pi_runtime/zenoh_dslr_pi_runtime/exposure_params.py:57-63 | an exposure parameter accepts values of any type |
| Exposure.ExposureParameterServer.Current | pi_runtime/zenoh_dslr_pi_runtime/exposure_params.py:91-107 | the loop gives the trimmed, non-empty texts in declaration order, and nothing before the server is started |
| Exposure.GPhoto2CaptureBackend.Assemble | pi_runtime/zenoh_dslr_pi_runtime/capture_backends.py:229-252 | the step-by-step assembly gives the command that CommandExact spells out, and reports the settings it inserted |
| Exposure.CommandExact | pi_runtime/zenoh_dslr_pi_runtime/capture_backends.py:229-252 | the command line place by place: gphoto2, the port iff one is set, the inserted pairs, the four capture arguments, `--keep` iff configured, then exactly the extra arguments |
| Exposure.ReportedExact | pi_runtime/zenoh_dslr_pi_runtime/capture_backends.py:234-240 | reported are the settings that are not blank, trimmed, in order |
| Exposure.ReportedInsert | pi_runtime/zenoh_dslr_pi_runtime/capture_backends.py:234-240 | the reported settings insert the same pairs as all settings: a blank one inserts nothing |
| Exposure.ReportedTrimmed | pi_runtime/zenoh_dslr_pi_runtime/capture_backends.py:234-240 | the exposure that is read is reported as it was read |
| Exposure.InsertedSettings | pi_runtime/zenoh_dslr_pi_runtime/capture_backends.py:235-240 | the second trimming changes and skips nothing: each setting inserts its pair |
| Exposure.ExposureReachesCamera | pi_runtime/zenoh_dslr_pi_runtime/capture_backends.py:229-252 | whatever requests are handled before and while the parameters are read, the pairs in the command line set exactly the declared names whose text is not blank when they are read, to that text, in declaration order, once each, behind the port and before the capture |

## Left out

- Building a parameter value from a native Python value (`from_python`), and values whose native type contradicts their tag.
- The wording of refusal reasons: they are constructors that carry the same data.
- NaN in range checks, floating-point rounding in the scale of the image publisher, and `assert_float32`.
- The wire form of descriptors (`descriptor_to_msg`), response classes, and starting and stopping the services.
- Zenoh, MQTT and rclpy sessions, discovery and type hashing; the SDK's own parser of the override string.
- Decoding and resizing pictures; subprocesses and the file system; other writers in the capture directory.
- Choosing among several downloaded files, capture metadata, and the other capture backends.
- `parse_locator` (splitting a locator into host and port), `resolve_name` (prefixing a relative name) and `close` (closing a node's endpoints in reverse order).
- Thread-start failure after the lock is taken: the code does not release on that path.
- Endpoints that the SDK creates without going through a node.
- Sub-directories of the buffer's directory, which pruning ignores.
- Persistence.PersistenceBuffer.Persist: equal and decreasing file times are excluded, because the order of equal times depends on the order the directory is read in.
- Exposure.ExposureParameterServer.Current: the method reads a store that does not change meanwhile; reads with requests in between are covered by `Exposure.ExposureReachesCamera`, on values.
- TypeClosure.RepairCloses: names in which replacing `/srv/msg/` makes a new occurrence are excluded; no ROS type name has this form, and for any such name that the registry does not bring closure fails (`TypeExact.UnsettledFails`).
