# pymtl3 core, modelled in Dafny

This project models the core of pymtl3, a Python framework for describing hardware. It covers:

- The three cycle-level queues of `stdlib/queues`.
  - `PipeQueueCL`, `BypassQueueCL` and `NormalQueueCL` are each a bounded `deque`.
  - Each exposes the guarded methods `enq`, `deq` and `peek`.
  - Their relative order within a cycle is fixed by `add_constraints`.
- The two adapters between CL method calls and RTL en/rdy handshakes in `stdlib/ifcs/SendRecvIfc.py`: `RecvCL2SendRTL` and `RecvRTL2SendCL`.
- The `TestSource` update component, which pops one input per tick.
- The two dummy energy tables and the accumulation done by `update_energy`.
- The RTLIR instance types of `passes/rtlir/rtype/RTLIRType.py`:
  - `Array` with its checks and helpers;
  - equality of the signal types;
  - the sorted property getters of `InterfaceView` and `Component`;
  - `_gen_parameters`, `_freeze`, `_unpack`, `_add_packed_instances`;
  - the two convertibility tests.
- The level-1 structural SystemVerilog translator, `SVStructuralTranslatorL1`. It covers:
  - reserved-keyword checks;
  - vector and unpacked-array declarations;
  - port, wire and constant declarations, including the nested `'{ ... }` array parameter literal;
  - connections, bit, part and array-index selections;
  - name mangling in `var_id`;
  - sized decimal literals.

Python values become Dafny values:

- Lists are `seq`.
- `dict`s keep their insertion order as a `seq` of pairs.
- `sorted(..., key=name)` is an insertion sort in code-point order.
- Strings are `seq<char>`.
- `str(int)` is `Strings.IntToString`, proved injective and parseable back.

A cycle is a pure function from the state and the method calls attempted in that cycle to the next state and the results. A guarded method runs only when its ready predicate holds at its place in the cycle. The queue's `deque` is a `seq` whose index 0 is the left end, so `Contents` (its reverse) is the FIFO order.

Literals, vector and unpacked-array declarations, port and wire declarations, the array parameter of a constant, connections, and bit, part and array-index selections each have a small parser next to them. The round-trip lemmas prove that the string says what it is meant to say. Where a parser reads back every input, distinct inputs render as distinct strings. The `localparam` line as a whole has no parser; only its array parameter does. `var_id` is not injective in general (`a[0]` and `a_$0` both become `a_$0`). `SVStructural.MangledSuffixInjective` proves only that index paths of the same length mangle to distinct suffixes.

## Model

| member | source | states |
|---|---|---|
| ClQueues.NewQueue | pymtl3/stdlib/queues/cl_queues.py:43-44 | a freshly constructed queue is empty and its capacity is `num_entries` |
| ClQueues.AppendLeft | pymtl3/stdlib/queues/cl_queues.py:54 | `appendleft` with room puts the message at the tail of the FIFO order and keeps the bound |
| ClQueues.Pop | pymtl3/stdlib/queues/cl_queues.py:57-58 | `pop` fails exactly on an empty deque; otherwise it returns the oldest message and leaves the others in order |
| ClQueues.PeekRight | pymtl3/stdlib/queues/cl_queues.py:61-62 | `queue[-1]` exists exactly when the deque is non-empty, and it is the oldest message |
| ClQueues.StepPeek | pymtl3/stdlib/queues/cl_queues.py:60-62 | a peek yields a value iff it was called and ready, and the value is the head |
| ClQueues.StepDeq | pymtl3/stdlib/queues/cl_queues.py:56-58 | a ready deq removes and returns exactly the head; an unready or uncalled deq changes nothing |
| ClQueues.StepEnq | pymtl3/stdlib/queues/cl_queues.py:51-54 | a ready enq appends exactly its message; otherwise the queue is unchanged |
| ClQueues.PipeTick | pymtl3/stdlib/queues/cl_queues.py:41-62 | peek and deq succeed iff the queue is non-empty, and a successful peek or deq returns the oldest message, the same one for both. Enq is accepted iff there is room or a deq freed a slot in the same cycle. The capacity is kept, and delivered messages followed by the new contents equal the old contents followed by the accepted message |
| ClQueues.BypassTick | pymtl3/stdlib/queues/cl_queues.py:71-91 | enq is accepted iff there is room. Peek and deq succeed iff the queue was non-empty or a message was enqueued in this cycle. A successful peek or deq returns the head of the old contents followed by the message accepted in this cycle, the same one for both. Messages are conserved in FIFO order |
| ClQueues.UpPulse | pymtl3/stdlib/queues/cl_queues.py:107-110 | the snapshot flags say exactly "has room" and "is non-empty" at the start of the cycle |
| ClQueues.NormalTick | pymtl3/stdlib/queues/cl_queues.py:100-129 | readiness comes from the start-of-cycle snapshot. Enq succeeds iff there was room and deq/peek iff it was non-empty, so nothing passes through in the same cycle. A successful peek or deq returns the oldest message, the same one for both. Messages are conserved in FIFO order |
| ClQueues.NormalTickDeqFirst | pymtl3/stdlib/queues/cl_queues.py:112-125 | the other order of enq and deq, which the constraints leave free, still keeps a valid queue |
| ClQueues.NormalOrderIrrelevant | pymtl3/stdlib/queues/cl_queues.py:112-125 | the two orders of enq and deq that the constraints allow give the same state and results |
| ClQueues.PipeFullDeqThenEnq | pymtl3/stdlib/queues/cl_queues.py:46-54 | a full pipe queue that is dequeued accepts an enq in the same cycle and ends with the rest of its contents followed by the new message |
| ClQueues.PipeEmptyNoBypass | pymtl3/stdlib/queues/cl_queues.py:46-58 | on an empty pipe queue, a message enqueued in a cycle cannot be peeked or dequeued in that cycle |
| ClQueues.BypassEmptyEnqThenDeq | pymtl3/stdlib/queues/cl_queues.py:76-87 | on an empty bypass queue, a message enqueued in a cycle is peeked and dequeued in the same cycle and the queue stays empty |
| ClQueues.BypassFullRefusesEnq | pymtl3/stdlib/queues/cl_queues.py:76-83 | a full bypass queue refuses enq even when it is dequeued in the same cycle |
| ClQueues.NormalNoSameCycleForwarding | pymtl3/stdlib/queues/cl_queues.py:107-125 | a full normal queue refuses enq despite a deq; an empty one refuses deq and peek despite an enq |
| ClQueues.PeekAgreesWithDeq | pymtl3/stdlib/queues/cl_queues.py:56-62 | peek returns the same message deq would, and that message followed by the remainder is the whole contents |
| ClQueues.Tick | pymtl3/stdlib/queues/cl_queues.py:41-129 | whichever queue kind, a cycle keeps the capacity and conserves messages in FIFO order. A successful peek or deq returns the head of the old contents followed by the accepted message, the same one for both |
| ClQueues.Run | pymtl3/stdlib/queues/cl_queues.py:44 | a queue never exceeds the capacity it was built with, over any sequence of cycles |
| ClQueues.RunIsFifo | pymtl3/stdlib/queues/cl_queues.py:54-58 | over any run, all messages delivered followed by the final contents equal the initial contents followed by all messages accepted |
| ClQueues.EmptyQueueDeliversInArrivalOrder | pymtl3/stdlib/queues/cl_queues.py:43-58 | starting empty, the delivered messages are a prefix of the accepted ones and the rest is still queued |
| SendRecvAdapters.NewCL2RTL | pymtl3/stdlib/ifcs/SendRecvIfc.py:162-168 | the adapter starts with no buffered entry and `en` low |
| SendRecvAdapters.UpClear | pymtl3/stdlib/ifcs/SendRecvIfc.py:171-173 | the entry is dropped iff the last cycle's `en` was high; otherwise it is kept |
| SendRecvAdapters.RecvRdy | pymtl3/stdlib/ifcs/SendRecvIfc.py:192 | the guard of `recv`: ready iff no entry is buffered. Its effect within a cycle is stated by `CL2RTLTick` and `CL2RTLHoldsUntilTaken` |
| SendRecvAdapters.Recv | pymtl3/stdlib/ifcs/SendRecvIfc.py:192-194 | `recv`, which is ready only while the buffer is empty, stores exactly its message |
| SendRecvAdapters.UpSendRtl | pymtl3/stdlib/ifcs/SendRecvIfc.py:176-182 | with no entry, `en` is low and `msg` is the default; with an entry, `en` follows `rdy` and `msg` is the entry |
| SendRecvAdapters.CL2RTLTick | pymtl3/stdlib/ifcs/SendRecvIfc.py:171-194 | in the order the constraints fix, a message is accepted iff one is offered and the buffer is empty or was just taken. `en` is raised only when `rdy` is high and a message is buffered |
| SendRecvAdapters.CL2RTLRefillSameCycle | pymtl3/stdlib/ifcs/SendRecvIfc.py:184-190 | once the RTL side takes the entry, a new message can be received and presented in the same cycle |
| SendRecvAdapters.CL2RTLHoldsUntilTaken | pymtl3/stdlib/ifcs/SendRecvIfc.py:171-182 | an entry not yet taken is kept and presented again, and further `recv`s are refused |
| SendRecvAdapters.CL2RTLTickConserves | pymtl3/stdlib/ifcs/SendRecvIfc.py:171-194 | in one cycle, pending entries plus the accepted message equal what is sent plus what is still pending |
| SendRecvAdapters.RunCL2RTLConserves | pymtl3/stdlib/ifcs/SendRecvIfc.py:160-194 | over any run, the adapter neither loses, duplicates nor reorders messages |
| SendRecvAdapters.FreshCL2RTLDeliversAccepted | pymtl3/stdlib/ifcs/SendRecvIfc.py:160-194 | from construction, everything accepted is either sent on the RTL side in order or still buffered |
| SendRecvAdapters.NewRTL2CL | pymtl3/stdlib/ifcs/SendRecvIfc.py:212-213 | the adapter starts with no sent message and `send_rdy` low |
| SendRecvAdapters.UpRecvRtlRdy | pymtl3/stdlib/ifcs/SendRecvIfc.py:216-218 | `recv.rdy` and `send_rdy` are both exactly "callee ready and not in reset" |
| SendRecvAdapters.UpSendCl | pymtl3/stdlib/ifcs/SendRecvIfc.py:221-225 | the CL callee is called iff `recv.en` is high, with exactly `recv.msg`, and `sent_msg` records that call |
| SendRecvAdapters.RTL2CLTick | pymtl3/stdlib/ifcs/SendRecvIfc.py:215-227 | with the ready update before the send update, the callee is called iff the RTL sender raises `en` given the `rdy` just computed, and it receives the sender's message |
| SendRecvAdapters.RTL2CLCallsOnlyWhenReady | pymtl3/stdlib/ifcs/SendRecvIfc.py:216-227 | a sender that obeys the handshake never makes the adapter call the callee while it is not ready or is in reset |
| TestSource.NewSource | pclib/update/TestSource.py:6-10 | construction succeeds iff the input is a list; the queue then holds the inputs and `out` is 0 |
| TestSource.UpSrc | pclib/update/TestSource.py:13-17 | with inputs left, `out` is the first and it is removed; with none left, `out` is 0 |
| TestSource.Done | pclib/update/TestSource.py:19-20 | `done()` holds iff no input is left. `DoneAfterLength` states when that happens |
| TestSource.Ticks | pclib/update/TestSource.py:12-17 | k runs of `up_src` in a row. `TicksConsume` states what they leave |
| TestSource.TicksConsume | pclib/update/TestSource.py:13-17 | after k ticks, the first k inputs are consumed, `out` is the k-th input, and once inputs run out `out` is 0 |
| TestSource.TicksRemaining | pclib/update/TestSource.py:13-17 | after k ticks the remaining input is the input without its first k elements, or empty once k exceeds its length |
| TestSource.TicksOut | pclib/update/TestSource.py:13-17 | after k ticks with 0 < k at most the input length, `out` is the k-th input; after more ticks than inputs it is 0 |
| TestSource.RemainingDecreases | pclib/update/TestSource.py:13-17 | each tick shortens the remaining input by one until it is empty |
| TestSource.DoneAfterLength | pclib/update/TestSource.py:6-20 | `done()` holds after k ticks iff k is at least the number of inputs, and the outputs replay the inputs in order |
| EnergyPlugin.GroupEnergy | pymtl3/energy/energy_plugin.py:33-75 | add/sub/mul fall in the `comp` group with 1, 2 and 4 per bit; pipeline/register fall in `seq` with 8 and 7 per bit; any other name is `misc` with energy 1 |
| EnergyPlugin.KnownEnergyIsLinear | pymtl3/energy/energy_plugin.py:33-75 | for a known operation, energy is linear in the bit width, zero at width 0, and the group does not depend on the width |
| EnergyPlugin.UnknownEnergyIsConstant | pymtl3/energy/energy_plugin.py:49-51 | an unknown operation always costs 1 in `misc`, whatever the width |
| EnergyPlugin.UpdateEnergy | pymtl3/energy/energy_plugin.py:21-30 | without a caller nothing happens. Otherwise exactly one entry, (group, name), changes: it is set on first use and increased by the energy after that |
| EnergyPlugin.ApplyAllSums | pymtl3/energy/energy_plugin.py:21-30 | after a sequence of updates, an entry exists iff it existed or was used, and its value is the old value plus the sum of the energies charged to it |
| DatatypesEnergy.Energy | pymtl3/datatypes/energy_plugin.py:2-26 | `__add__`, `__sub__` and `__mul__` cost 1, 2 and 4 per bit; everything else costs 0 |
| DatatypesEnergy.EnergyIsAdditive | pymtl3/datatypes/energy_plugin.py:2-26 | energy is additive in the bit width and non-negative for non-negative widths |
| RTLIRValues.Freeze | pymtl3/passes/rtlir/rtype/RTLIRType.py:466-470 | freezing leaves no list at the top, leaves non-lists alone, and turns a list into a tuple of the frozen elements |
| RTLIRValues.FreezeRoundTrip | pymtl3/passes/rtlir/rtype/RTLIRType.py:466-470 | on tuple-free values, freezing leaves no list anywhere, can be undone, and is idempotent |
| RTLIRValues.IsRtlirConvertible | pymtl3/passes/rtlir/rtype/RTLIRType.py:495-516 | `is_rtlir_convertible`: a list is decided by its first element, an empty list counts as convertible, tuples and unknown objects are not. `ConvertibleByLeftmostLeaf` and `IfcConvertibleIsConvertible` state its meaning |
| RTLIRValues.IsRtlirIfcConvertible | pymtl3/passes/rtlir/rtype/RTLIRType.py:451-464 | `_is_rtlir_ifc_convertible`: the same descent, where only ports and interfaces qualify. `ConvertibleByLeftmostLeaf` and `IfcConvertibleIsConvertible` state its meaning |
| RTLIRValues.LeftmostLeaf | pymtl3/passes/rtlir/rtype/RTLIRType.py:453-459 | following first elements stops either at a non-list or at an empty list |
| RTLIRValues.ConvertibleByLeftmostLeaf | pymtl3/passes/rtlir/rtype/RTLIRType.py:451-516 | both convertibility tests of a nested list are decided by its leftmost leaf alone, with an empty list counting as convertible |
| RTLIRValues.IfcConvertibleIsConvertible | pymtl3/passes/rtlir/rtype/RTLIRType.py:451-516 | everything convertible as an interface attribute is RTLIR-convertible |
| RTLIRValues.BindFrom | pymtl3/passes/rtlir/rtype/RTLIRType.py:348-361 | binding from position i succeeds iff every remaining parameter is covered by a positional, keyword or default value. Each parameter gets, in that priority, the value the source picks |
| RTLIRValues.GenParameters | pymtl3/passes/rtlir/rtype/RTLIRType.py:321-363 | it fails on `**kwargs`, keyword-only parameters, `*args` or too few values. Otherwise it returns one (name, value) pair per parameter of `construct` in declaration order, positional before keyword before default |
| RTLIRValues.TooFewValuesFail | pymtl3/passes/rtlir/rtype/RTLIRType.py:342-343 | if supplied values plus defaults cannot cover the parameters, parameter generation fails |
| RTLIRValues.AllPositional | pymtl3/passes/rtlir/rtype/RTLIRType.py:348-352 | when every parameter is passed positionally, the result pairs the names with the positional values |
| RTLIRValues.DefaultOnlyExample | pymtl3/passes/rtlir/rtype/RTLIRType.py:358-361 | `construct(s, num_entries=1)` called with nothing binds `num_entries` to 1 |
| RTLIRType.MakeArray | pymtl3/passes/rtlir/rtype/RTLIRType.py:47-57 | an array is built iff its subtype is not an array, it has at least one dimension and the dimension sizes sum to more than 0 |
| RTLIRType.IsOfType | pymtl3/passes/rtlir/rtype/RTLIRType.py:487-493 | `_is_of_type`: a type of one of the kinds, or an array whose subtype is. `RTLIRProperties.Get` states what the getters built on it return |
| RTLIRType.NextDim | pymtl3/passes/rtlir/rtype/RTLIRType.py:73-77 | the next dimension type drops one dimension: the subtype for a one-dimensional array, otherwise the same array without its first size |
| RTLIRType.Peel | pymtl3/passes/rtlir/rtype/RTLIRType.py:73-77 | peeling k dimensions leaves an array type k ranks lower |
| RTLIRType.PeelDims | pymtl3/passes/rtlir/rtype/RTLIRType.py:73-77 | peeling every dimension gives the subtype; peeling fewer keeps the trailing sizes |
| RTLIRType.NextDimWellFormed | pymtl3/passes/rtlir/rtype/RTLIRType.py:47-57 | with positive sizes, the next dimension of a multi-dimensional array again passes the constructor checks |
| RTLIRType.CeilLog2 | pymtl3/passes/rtlir/rtype/RTLIRType.py:88 | the result r is the least with 2^r at least n |
| RTLIRType.IndexWidth | pymtl3/passes/rtlir/rtype/RTLIRType.py:82-88 | the index width is 1 for at most one element, otherwise the least number of bits whose range covers every index |
| RTLIRType.Unpack | pymtl3/passes/rtlir/rtype/RTLIRType.py:472-478 | `_unpack`: a non-array is its own single entry; an array unpacks element by element. `UnpackComplete`, `UnpackSound` and `UnpackNamesExtendId` state what it holds |
| RTLIRType.UnpackFrom | pymtl3/passes/rtlir/rtype/RTLIRType.py:474-477 | the loop of `_unpack` from one index of the first dimension on, each element followed by its own unpacking. `UnpackComplete` and `UnpackSound` state what it holds |
| RTLIRType.UnpackComplete | pymtl3/passes/rtlir/rtype/RTLIRType.py:472-478 | every valid index prefix of an array appears in the unpacking, as the name with that suffix and the type left after peeling |
| RTLIRType.UnpackSound | pymtl3/passes/rtlir/rtype/RTLIRType.py:472-478 | every unpacked entry is the base name extended by a valid index prefix, paired with the matching peeled type |
| RTLIRType.UnpackNamesExtendId | pymtl3/passes/rtlir/rtype/RTLIRType.py:472-478 | every unpacked name strictly extends the array's name with a `[` right after it |
| RTLIRType.SuffixInjective | pymtl3/passes/rtlir/rtype/RTLIRType.py:476-477 | the bracketed index suffix `[i1]...[ik]` built by the f-strings determines the index path |
| RTLIRType.UnpackConsistent | pymtl3/passes/rtlir/rtype/RTLIRType.py:472-478 | two unpacked entries with the same name have the same type, so the order in which the dict receives them does not matter |
| RTLIRType.Lookup | pymtl3/passes/rtlir/rtype/RTLIRType.py:438-442 | a lookup finds a value iff the key is present, and the pair is in the dictionary |
| RTLIRType.DictSet | pymtl3/passes/rtlir/rtype/RTLIRType.py:485 | assigning a key keeps keys distinct, makes the key map to the value, and leaves every other key alone |
| RTLIRType.MarkUnpacked | pymtl3/passes/rtlir/rtype/RTLIRType.py:483-484 | setting `unpacked` marks the type unpacked without changing its kind |
| RTLIRType.SetAll | pymtl3/passes/rtlir/rtype/RTLIRType.py:482-485 | after storing every entry, each stored name maps to an unpacked type. The entry stored last under a name is the one kept, marked unpacked. Names not stored are untouched, and no other names appear |
| RTLIRType.AddPackedInstances | pymtl3/passes/rtlir/rtype/RTLIRType.py:480-485 | it fails on a non-array. An array succeeds iff no unpacked entry is `NoneType`. Then every unpacked name maps to its own type marked unpacked, the array's own entry is unchanged, every other name is untouched, and nothing else is added |
| RTLIRProperties.StrLeTotal | pymtl3/passes/rtlir/rtype/RTLIRType.py:399 | Python's string order is total, so sorting by name is well defined |
| RTLIRProperties.PackedOf | pymtl3/passes/rtlir/rtype/RTLIRType.py:401-404 | the packed test of the getters: not unpacked, and of the kind or an array of the kind. `Get` and `PackedPortsArePackedPorts` state what it selects |
| RTLIRProperties.Selects | pymtl3/passes/rtlir/rtype/RTLIRType.py:398-436 | which properties each getter's comprehension keeps. `Get`, `Filter` and `FilterCount` state what the getters return |
| RTLIRProperties.Insert | pymtl3/passes/rtlir/rtype/RTLIRType.py:399 | inserting into a name-sorted list keeps it sorted and adds exactly one copy of the pair |
| RTLIRProperties.SortByName | pymtl3/passes/rtlir/rtype/RTLIRType.py:399 | `sorted(key=name)` returns a name-sorted permutation of its input |
| RTLIRProperties.Filter | pymtl3/passes/rtlir/rtype/RTLIRType.py:398-436 | a comprehension keeps exactly the properties that the selector accepts, and no duplicates are added |
| RTLIRProperties.Get | pymtl3/passes/rtlir/rtype/RTLIRType.py:398-436 | each getter returns, sorted by name, a permutation of exactly the properties of its kind, keeping every copy (packed getters: plain or array-of-kind, not unpacked) |
| RTLIRProperties.GetIgnoresInsertionOrder | pymtl3/passes/rtlir/rtype/RTLIRType.py:398-436 | getter results do not depend on dictionary insertion order |
| RTLIRProperties.FilterMultiset | pymtl3/passes/rtlir/rtype/RTLIRType.py:398-436 | filtering two permutations of the same properties gives permutations of each other |
| RTLIRProperties.FilterCount | pymtl3/passes/rtlir/rtype/RTLIRType.py:398-436 | the filter keeps every copy of an accepted property and none of a rejected one |
| RTLIRProperties.MakeInterfaceView | pymtl3/passes/rtlir/rtype/RTLIRType.py:246-248 | an interface view is built iff every property is a port or interface view, or an array of one |
| RTLIRProperties.FirstInvalidAttribute | pymtl3/passes/rtlir/rtype/RTLIRType.py:246-248 | there is no invalid attribute iff every property passes the sanity check |
| RTLIRProperties.FirstNonPort | pymtl3/passes/rtlir/rtype/RTLIRType.py:277-281 | there is no property lacking `.direction` iff every property is a plain port |
| RTLIRProperties.DirectionPortsAsWritten | pymtl3/passes/rtlir/rtype/RTLIRType.py:277-281 | as written, the direction getters fail unless every property is a plain port; when they succeed, they return the ports of that direction sorted by name |
| RTLIRProperties.DirectionFilter | pymtl3/passes/rtlir/rtype/RTLIRType.py:277-281 | the comprehension keeps exactly the plain ports with the given direction |
| RTLIRProperties.PortArrayBreaksInputPorts | pymtl3/passes/rtlir/rtype/RTLIRType.py:246-281 | an interface holding an array of ports passes the sanity check, but `get_input_ports` on it fails |
| RTLIRProperties.DirectionPorts | pymtl3/passes/rtlir/rtype/RTLIRType.py:277-281 | corrected: the direction getters return, sorted by name, exactly the plain ports with that direction |
| RTLIRProperties.DirectionPortsAgree | pymtl3/passes/rtlir/rtype/RTLIRType.py:277-281 | where the written getters succeed, they agree with the corrected ones |
| RTLIRProperties.PortLikeEqIsEq | pymtl3/passes/rtlir/rtype/RTLIRType.py:62-65 | for packed ports and port arrays, the pairwise test used by `_has_same_interface` is RTLIR type equality |
| RTLIRProperties.PortLikeEqEquivalence | pymtl3/passes/rtlir/rtype/RTLIRType.py:135-137 | port equality (direction and data type, and dimension sizes for arrays) is an equivalence |
| RTLIRProperties.SameInterface | pymtl3/passes/rtlir/rtype/RTLIRType.py:368-370 | `_has_same_interface`: the same number of packed ports, pairwise equal by name and type. `SameInterfaceEquivalence` and `ComponentEqIffSamePorts` state its properties |
| RTLIRProperties.Eq | pymtl3/passes/rtlir/rtype/RTLIRType.py:62-374 | the `__eq__` of every RTLIR instance type. `EqIsEquivalence`, `EqSameKind`, `EqIgnoresUnpacked` and `ComponentEqIffSamePorts` state its properties |
| RTLIRProperties.PackedPortsArePackedPorts | pymtl3/passes/rtlir/rtype/RTLIRType.py:401-404 | every entry returned by `get_ports_packed` is a packed port or an array of ports |
| RTLIRProperties.SameInterfaceEquivalence | pymtl3/passes/rtlir/rtype/RTLIRType.py:368-370 | having the same interface is reflexive, symmetric and transitive on lists of packed ports |
| RTLIRProperties.ComponentEqEquivalence | pymtl3/passes/rtlir/rtype/RTLIRType.py:372-374 | component equality is an equivalence relation |
| RTLIRProperties.EqIsEquivalence | pymtl3/passes/rtlir/rtype/RTLIRType.py:62-374 | RTLIR type equality, across every kind, is reflexive, symmetric and transitive |
| RTLIRProperties.EqIgnoresUnpacked | pymtl3/passes/rtlir/rtype/RTLIRType.py:480-485 | marking a type unpacked does not change what it is equal to |
| RTLIRProperties.EqSameKind | pymtl3/passes/rtlir/rtype/RTLIRType.py:62-65 | equal types have the same kind, and an array's equality ignores the object it was built from and its unpacked flag |
| RTLIRProperties.ComponentEqIffSamePorts | pymtl3/passes/rtlir/rtype/RTLIRType.py:368-374 | two components are equal iff their packed port lists have the same length and are pairwise equal |
| Strings.NatToStringRoundTrip | pymtl3/passes/sverilog/translation/structural/SVStructuralTranslatorL1.py:171-173 | decimal rendering of a natural number reads back as the same number |
| Strings.IntToStringRoundTrip | pymtl3/passes/sverilog/translation/structural/SVStructuralTranslatorL1.py:171-173 | decimal rendering of any integer, sign included, reads back as the same integer |
| Strings.IntToStringInjective | pymtl3/passes/sverilog/translation/structural/SVStructuralTranslatorL1.py:171-173 | distinct integers render as distinct strings |
| SVStructural.Literal | pymtl3/passes/sverilog/translation/structural/SVStructuralTranslatorL1.py:171-173 | `_literal_number`: `<nbits>'d<value>`. `LiteralRoundTrip` and `LiteralInjective` state what it encodes |
| SVStructural.LiteralRoundTrip | pymtl3/passes/sverilog/translation/structural/SVStructuralTranslatorL1.py:171-176 | a sized literal `N'dV` reads back as exactly its width and value |
| SVStructural.LiteralInjective | pymtl3/passes/sverilog/translation/structural/SVStructuralTranslatorL1.py:171-176 | two literals are the same string only if width and value agree |
| SVStructural.VectorDtype | pymtl3/passes/sverilog/translation/structural/SVStructuralTranslatorL1.py:29-37 | `rtlir_tr_vector_dtype`: the declaration template `logic [nbits-1:0] id`. `VectorDeclRoundTrip` states what it reads back as |
| SVStructural.VectorDeclRoundTrip | pymtl3/passes/sverilog/translation/structural/SVStructuralTranslatorL1.py:29-37 | a vector declaration reads back as the range `[nbits-1:0]` and the declared name |
| SVStructural.UnpackedArrayType | pymtl3/passes/sverilog/translation/structural/SVStructuralTranslatorL1.py:39-49 | with no array, declaration and dimensions are empty; with an array, the dimensions are its sizes and the declaration starts with a space |
| SVStructural.DimsDeclAcc | pymtl3/passes/sverilog/translation/structural/SVStructuralTranslatorL1.py:43-44 | the reduce that builds the dimensions appends to whatever it starts from |
| SVStructural.DimsRoundTrip | pymtl3/passes/sverilog/translation/structural/SVStructuralTranslatorL1.py:43-44 | the `[0:d-1]` pieces read back as exactly the dimension sizes |
| SVStructural.UnpackedArrayRoundTrip | pymtl3/passes/sverilog/translation/structural/SVStructuralTranslatorL1.py:39-49 | an array's unpacked declaration reads back as its dimension sizes |
| SVStructural.CheckDecl | pymtl3/passes/sverilog/translation/structural/SVStructuralTranslatorL1.py:21-23 | a declaration is refused iff its name is a reserved keyword, and the error names it |
| SVStructural.PortDecl | pymtl3/passes/sverilog/translation/structural/SVStructuralTranslatorL1.py:59-68 | a port declaration fails iff the name is reserved, and the error names it. `PortDeclRoundTrip` states what the text says |
| SVStructural.WireDecl | pymtl3/passes/sverilog/translation/structural/SVStructuralTranslatorL1.py:74-82 | a wire declaration fails iff the name is reserved, and the error names it. `WireDeclRoundTrip` states what the text says |
| SVStructural.DeclBodyRoundTrip | pymtl3/passes/sverilog/translation/structural/SVStructuralTranslatorL1.py:29-49 | a vector declaration followed by an unpacked-array suffix reads back as the vector's msb, the name and the dimension sizes, provided the name holds no space |
| SVStructural.PortDeclRoundTrip | pymtl3/passes/sverilog/translation/structural/SVStructuralTranslatorL1.py:59-68 | a successful port declaration reads back as its direction, the msb `nbits-1`, the port's name and the array's dimension sizes, provided direction and name hold no space |
| SVStructural.WireDeclRoundTrip | pymtl3/passes/sverilog/translation/structural/SVStructuralTranslatorL1.py:74-82 | a successful wire declaration reads back as the msb `nbits-1`, the wire's name and the array's dimension sizes, provided the name holds no space |
| SVStructural.GenArrayParam | pymtl3/passes/sverilog/translation/structural/SVStructuralTranslatorL1.py:90-106 | the array parameter renders iff the value conforms to the dimensions: lists at least as long at each level and integers or `Bits` at the leaves |
| SVStructural.GenElems | pymtl3/passes/sverilog/translation/structural/SVStructuralTranslatorL1.py:101-105 | the element loop succeeds iff every element still to render conforms to the inner dimensions |
| SVStructural.ConstDecl | pymtl3/passes/sverilog/translation/structural/SVStructuralTranslatorL1.py:88-123 | a constant declaration succeeds iff the type is a vector, the name is not reserved and the value conforms. A non-vector fails with that error, and success yields the `localparam` line |
| SVStructural.ToLit | pymtl3/passes/sverilog/translation/structural/SVStructuralTranslatorL1.py:90-106 | a conforming value's literal tree has exactly the shape of the dimensions |
| SVStructural.ToLitLeaves | pymtl3/passes/sverilog/translation/structural/SVStructuralTranslatorL1.py:90-98 | at every in-range index path, the literal tree holds the sized literal of the value at that path |
| SVStructural.GenElemsRenders | pymtl3/passes/sverilog/translation/structural/SVStructuralTranslatorL1.py:101-105 | the element loop from position i produces the comma-separated rendering of the remaining elements |
| SVStructural.GenArrayParamRenders | pymtl3/passes/sverilog/translation/structural/SVStructuralTranslatorL1.py:90-106 | the generated parameter is the rendering of the literal tree |
| SVStructural.IntPrefixRoundTrip | pymtl3/passes/sverilog/translation/structural/SVStructuralTranslatorL1.py:171-173 | a rendered integer followed by a delimiter reads back as that integer and the rest |
| SVStructural.ScalarRoundTrip | pymtl3/passes/sverilog/translation/structural/SVStructuralTranslatorL1.py:171-173 | a sized literal followed by a delimiter reads back as that literal and the rest |
| SVStructural.LitRoundTrip | pymtl3/passes/sverilog/translation/structural/SVStructuralTranslatorL1.py:101-105 | any nested `'{ a, b }` literal reads back as exactly its tree, so distinct arrays give distinct parameters |
| SVStructural.BodyRoundTrip | pymtl3/passes/sverilog/translation/structural/SVStructuralTranslatorL1.py:101-105 | a non-empty comma-separated element list closed by ` }` reads back as exactly its elements |
| SVStructural.GenArrayParamDecodes | pymtl3/passes/sverilog/translation/structural/SVStructuralTranslatorL1.py:90-106 | a conforming value's parameter renders and reads back as a tree with the dimensions' shape |
| SVStructural.Connection | pymtl3/passes/sverilog/translation/structural/SVStructuralTranslatorL1.py:133-134 | `rtlir_tr_connection`: the read side is assigned the written side. `ConnectionRoundTrip` states what it reads back as |
| SVStructural.ConnectionRoundTrip | pymtl3/passes/sverilog/translation/structural/SVStructuralTranslatorL1.py:133-134 | `assign rd = wr;` reads back with the written signal on the right and the read signal on the left |
| SVStructural.Index | pymtl3/passes/sverilog/translation/structural/SVStructuralTranslatorL1.py:140-156 | the shared form `base[index]`. `IndexRoundTrip` states what it reads back as |
| SVStructural.BitSelection | pymtl3/passes/sverilog/translation/structural/SVStructuralTranslatorL1.py:140-142 | `rtlir_tr_bit_selection`, the form `base[index]`. `IndexRoundTrip` states what it reads back as |
| SVStructural.PortArrayIndex | pymtl3/passes/sverilog/translation/structural/SVStructuralTranslatorL1.py:149-150 | `rtlir_tr_port_array_index`, the form `base[index]`. `IndexRoundTrip` states what it reads back as |
| SVStructural.WireArrayIndex | pymtl3/passes/sverilog/translation/structural/SVStructuralTranslatorL1.py:152-153 | `rtlir_tr_wire_array_index`, the form `base[index]`. `IndexRoundTrip` states what it reads back as |
| SVStructural.ConstArrayIndex | pymtl3/passes/sverilog/translation/structural/SVStructuralTranslatorL1.py:155-156 | `rtlir_tr_const_array_index`, the form `base[index]`. `IndexRoundTrip` states what it reads back as |
| SVStructural.PartSelection | pymtl3/passes/sverilog/translation/structural/SVStructuralTranslatorL1.py:144-147 | `rtlir_tr_part_selection`: the slice `start:stop` becomes `base[stop-1:start]`. `PartSelectionRoundTrip` states what it reads back as |
| SVStructural.IndexRoundTrip | pymtl3/passes/sverilog/translation/structural/SVStructuralTranslatorL1.py:140-156 | bit selections and port/wire/constant array indexes read back as exactly their base and index |
| SVStructural.PartSelectionRoundTrip | pymtl3/passes/sverilog/translation/structural/SVStructuralTranslatorL1.py:144-147 | `base[stop-1:start]` reads back as those bounds, and the SystemVerilog range covers exactly the indices of the Python slice `start:stop` |
| SVStructural.CurrentCompAttr | pymtl3/passes/sverilog/translation/structural/SVStructuralTranslatorL1.py:158-159 | an attribute of the current component is named by the attribute alone, without a base prefix |
| SVStructural.CurrentComp | pymtl3/passes/sverilog/translation/structural/SVStructuralTranslatorL1.py:161-162 | the current component contributes no text |
| SVStructural.ReplaceCharConcat | pymtl3/passes/sverilog/translation/structural/SVStructuralTranslatorL1.py:169 | `str.replace` of one character distributes over concatenation |
| SVStructural.ReplaceCharRemoves | pymtl3/passes/sverilog/translation/structural/SVStructuralTranslatorL1.py:169 | replacing a character by text that does not contain it removes it, and adds no character absent from both |
| SVStructural.ReplaceCharAbsent | pymtl3/passes/sverilog/translation/structural/SVStructuralTranslatorL1.py:169 | replacing a character that does not occur changes nothing |
| SVStructural.VarId | pymtl3/passes/sverilog/translation/structural/SVStructuralTranslatorL1.py:168-169 | `rtlir_tr_var_id`: `[` becomes `_$` and `]` is dropped. `VarIdNoBrackets`, `VarIdConcat`, `VarIdSuffix` and `MangledSuffixInjective` state its properties |
| SVStructural.VarIdNoBrackets | pymtl3/passes/sverilog/translation/structural/SVStructuralTranslatorL1.py:168-169 | a mangled name has no brackets, and a name without brackets is unchanged |
| SVStructural.VarIdConcat | pymtl3/passes/sverilog/translation/structural/SVStructuralTranslatorL1.py:168-169 | mangling distributes over concatenation |
| SVStructural.VarIdSuffix | pymtl3/passes/sverilog/translation/structural/SVStructuralTranslatorL1.py:168-169 | the index suffix `[i][j]...` mangles to `_$i_$j...` |
| SVStructural.VarIdOfUnpackedName | pymtl3/passes/rtlir/rtype/RTLIRType.py:472-478 | every name produced by unpacking an array mangles to the mangled array name followed by `_$i` for each index of a valid index prefix |
| SVStructural.MangledSuffixInjective | pymtl3/passes/sverilog/translation/structural/SVStructuralTranslatorL1.py:168-169 | distinct index paths of one length mangle to distinct suffixes, so unpacked elements never collide |
| SVStructural.PortArrayDeclExample | pymtl3/passes/sverilog/translation/structural/test/SVStructuralTranslatorL2_test.py:202 | a two-element array of 32-bit output ports `out` declares as `output logic [31:0] out [0:1]` |
| SVStructural.ScalarPortDeclExample | pymtl3/passes/sverilog/translation/structural/test/SVStructuralTranslatorL2_test.py:57 | a one-bit input port `clk` declares as `input logic [0:0] clk` |
| SVStructural.ArrayParamExample | pymtl3/passes/sverilog/translation/structural/SVStructuralTranslatorL1.py:90-106 | `[1, 2, 3]` under dimensions `[2]` renders as `'{ 32'd1, 32'd2 }`, so surplus list elements are ignored |
| SVStructural.ConnectionExample | pymtl3/passes/sverilog/translation/structural/test/SVStructuralTranslatorL2_test.py:65 | connecting `in_.foo` to `out` renders as `assign out = in_.foo;` and reads back |
| SVStructural.VarIdExample | pymtl3/passes/sverilog/translation/structural/SVStructuralTranslatorL1.py:168-169 | `out[0]` mangles to `out_$0` |

## Left out

- The scheduler is not modelled. Each component's update blocks and methods run in one fixed order that satisfies its `add_constraints`. Where the constraints leave two methods unordered, peek is placed first; for the normal queue, `NormalOrderIrrelevant` shows the choice does not matter.
- Construction wiring (`connect`, `SendIfcRTL`, `CallerIfcCL`) and `RecvFL2SendCL` are not modelled. They are plumbing outside these components' per-cycle behaviour.
- `deepcopy` in `recv` is not modelled: messages are immutable values here.
- `line_trace`, `__str__`, `__repr__` and `__hash__` are not modelled. They produce text for humans or hashing and carry no behaviour.
- `_get_caller` and `_get_func_name` inspect Python stack frames. The caller becomes an explicit optional energy table passed to `EnergyPlugin.UpdateEnergy`.
- `_get_bits` is not modelled. The pipeline queue's call to `update_energy` inside `enq` is left out of `ClQueues.PipeTick`, because its only effect is on the energy table, which `EnergyPlugin` models on its own.
- Assertion messages and exception texts are not modelled. Failures carry an error constructor, not the formatted message, and the inverted `if array_type:` branches that only pick a message template therefore change nothing.
- `num_entries` is a `nat`. A negative `maxlen` raises in Python's `deque` before any cycle runs.
- `TestSource` inputs are modelled as integers; the component never inspects them.
- The SystemVerilog keyword list is a parameter `reserved: string -> bool`, because `is_sverilog_reserved` is not part of this model.
- `Bits` is modelled by its width and integer value. `int(value)` of a `Bits` is its unsigned value.
- RTLIRType.CeilLog2: `math.ceil(math.log2(n))` is modelled as the exact integer ceiling of log2, and `RTLIRType.IndexWidth` inherits it. Floating-point rounding is ignored: from n = 2^49 + 1 on, `math.log2(n)` can round down to an exact integer, so the source's width can be one less than the model's.
- `InterfaceView.get_all_properties` is not modelled: it passes the key function positionally and raises `TypeError` in Python 3.
- `Component.get_all_properties` (pymtl3/passes/rtlir/rtype/RTLIRType.py:444-445) and `get_property` are not modelled separately: they return the component's `properties` dictionary, or one entry of it, which is the `properties` field of the model's `Component`.
- RTLIRType.AddPackedInstances: when a later unpacked entry fails the `hasattr` assertion, the source has already marked and stored the earlier entries in `properties` (pymtl3/passes/rtlir/rtype/RTLIRType.py:482-485). The model returns `Failure` and leaves no partial state.
- `get_args`, `get_class`, `obj`, `file_info` and `params` are not modelled; they are stored reflection data.
- `RTLIRGetter`, the per-object caching front end, is not modelled. It walks live Python objects.
- `RTLIRDataType.py` (the data types Vector, Struct, PackedArray) is not part of this model: a data type is reduced to the constructors the translator inspects.
- `make_indent` and the `rtlir_tr_*_decls` joiners are not modelled. They only indent and join lines, and `make_indent` is not part of this model.
- `get_component_unique_name` is not part of this model.
- The Yosys translator files are context, not modelled.
- In `RTLIRType.IsOfType` and the packed getters, `NoneType` counts as packed, because it has no `unpacked` flag to test.

## Findings

| source | as written | input that shows it | evidently intended | confidence | as-written member | corrected member |
|---|---|---|---|---|---|---|
| pymtl3/passes/rtlir/rtype/RTLIRType.py:277-281 | `get_input_ports` / `get_output_ports` read `.direction` of every property of the interface | an interface whose properties include an `Array` of ports (or a nested `InterfaceView`). It passes the constructor's sanity check at lines 246-248, but neither has a `direction` attribute, so the getter raises `AttributeError` | return the plain ports of that direction, skipping other properties | not executed | RTLIRProperties.PortArrayBreaksInputPorts | RTLIRProperties.DirectionPorts |
