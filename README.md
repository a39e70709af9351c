# stratisd-client-dbus: marshalling, udev activation order, device-mapper cleanup

This project models three sequential pieces of the stratisd D-Bus client
repository and proves properties of them in Dafny 4.11.

1. **Argument marshalling** (`DbusImplementation`, `marshalling.dfy`).
   - `_option_to_tuple` encodes an optional value as a (present, value) pair.
   - `_info_to_xformer` and its inner `xformer` form the transformer that checks
     the argument count and applies, per argument, the input transform and then
     the foreign output transform, keeping the first component.
   - `_xformers` builds the method table.
   - Inside a generated method, `dbus_func` checks the keywords against the
     declared names and reorders them.
   - `ManagerSpec.INPUT_SIGS` is the argument table of the Manager interface,
     including `CreatePool`.
   - Python objects are a `Value` datatype.
   - The foreign `into_dbus_python.xformers` is a function parameter
     (`Foreign`) from a signature string to a list of (transform, signature)
     pairs.
   - Sorting by `names.index` is modelled as ordering by first occurrence.
     With repeated declared names that order is `Dedup`, proved to be the
     only order that sorts the keys.
2. **The activation-sequence discipline of the udev test driver** (`UdevTest`,
   `udev.dfy`).
   - The loop-back device manager is a class `LoopBackDevices`. Its state is
     the attached/detached flag of every device it created, plus the next
     token.
   - `_test_driver` is modelled on the device side:
     - create the pools;
     - unplug every device;
     - build the round-robin activation sequence over `pool_data.keys()`;
     - hot-plug all of it but the last `number_of_pools` entries;
     - then hot-plug those entries.
   - `pool_data` is a dict. It is modelled as its keys in insertion order
     together with a map, so a repeated `rs(5)` name keeps its first position
     and has its tokens replaced, as in Python.
   - The random letters of `rs` are an input (`picks`). So is `device_file`.
3. **Device-mapper cleanup** (`DeviceMapper`, `dm.dfy`).
   - `_get_stratis_devices` is modelled with output splitting exactly as
     `str.split()` does it, using the `str.isspace` characters.
   - `remove_stratis_setup` is a `while` loop of sweeps over a copy of the
     list.
   - The exit status and decoded output of `dmsetup ls` are inputs.
   - The success of each `dmsetup remove` is an input function of (device,
     sweep number).
   - The removal calls made are returned as a trace.

`Seqs` (`seqs.dfy`) holds shared facts about sequences: distinctness,
element sets, subsequences and filtering.

The ordering claim behind the driver depends on the pool names:
- When the drawn pool names are distinct, the prefix leaves every pool missing
  exactly its last device, and the suffix completes every pool.
- When two `rs(5)` names collide, `pool_data` has fewer entries than
  `number_of_pools`, and `[:-number_of_pools]` drops more than one column.
  The model still proves that no pool's last device is in the prefix and that
  everything is attached at the end. "exactly its last device" is claimed only
  for the distinct case.

## Model

| member | source | states |
|---|---|---|
| DbusImplementation.Identity | src/stratisd_client_dbus/_implementation.py:27 | `_IDENTITY`, a definition with no contract: it returns its argument; the tables below state where it is used |
| DbusImplementation.OptionToTuple | src/stratisd_client_dbus/_implementation.py:29-38 | the result is a pair whose flag is false exactly for None, with the default in that case and the value itself otherwise |
| DbusImplementation.OptionRoundTrip | src/stratisd_client_dbus/_implementation.py:38 | decoding the pair recovers the optional for every default; falsy values such as 0 and False are encoded as present |
| DbusImplementation.JoinSigs | src/stratisd_client_dbus/_implementation.py:51 | `"".join(...)` over the specs, a definition with no contract; JoinSigsAt and JoinSigsAppend state its properties |
| DbusImplementation.JoinSigsAt | src/stratisd_client_dbus/_implementation.py:51 | the string handed to the foreign library is each argument's signature in declared order, with signature k exactly between the ones before and after it |
| DbusImplementation.JoinSigsAppend | src/stratisd_client_dbus/_implementation.py:51 | joining the signatures of two spec lists in sequence is concatenating their joins |
| DbusImplementation.Names | src/stratisd_client_dbus/_implementation.py:83 | the name list has one entry per spec, entry k being spec k's name |
| DbusImplementation.InfoToXformer | src/stratisd_client_dbus/_implementation.py:41-52 | the transformer captures the arity `len(specs)`, spec k's input transform at k, and the first component of every pair the foreign library returns for the joined signature |
| DbusImplementation.ZipApply | src/stratisd_client_dbus/_implementation.py:66-68 | the nested zip stops at the shortest of its three lists, and element k is the first component of outxform k applied to inxform k of object k |
| DbusImplementation.Apply | src/stratisd_client_dbus/_implementation.py:54-68 | the transformer fails with the wrong-number error exactly when the object count differs from the expected length |
| DbusImplementation.XformerSpec | src/stratisd_client_dbus/_implementation.py:50-68 | for any spec list: failure exactly on a wrong count; with at least one foreign transform per argument, success gives one element per spec, element k being `outxform_k(inxform_k(obj_k))[0]` |
| DbusImplementation.XformerTruncates | src/stratisd_client_dbus/_implementation.py:66-68 | with fewer foreign transforms than specs, `zip` truncates: the call succeeds with a shorter list |
| DbusImplementation.Xformers | src/stratisd_client_dbus/_implementation.py:73-84 | the method table has exactly the input keys; each entry holds the spec names in declared order and the transformer built from that method's specs |
| DbusImplementation.FirstIndex | src/stratisd_client_dbus/_implementation.py:338 | `names.index(x)`: a position holding x with no earlier x |
| DbusImplementation.FirstIndexPrefix | src/stratisd_client_dbus/_implementation.py:338 | the first index of a name found in a prefix is the same in the whole list |
| DbusImplementation.Dedup | src/stratisd_client_dbus/_implementation.py:336-338 | the distinct names, each once, holding exactly the names of the input, ordered by first occurrence |
| DbusImplementation.DedupSeen | src/stratisd_client_dbus/_implementation.py:336-338 | a name seen before leaves the first-occurrence order unchanged |
| DbusImplementation.DedupNew | src/stratisd_client_dbus/_implementation.py:336-338 | a new name goes last and keeps the order distinct and sorted by first index |
| DbusImplementation.DedupOfDistinct | src/stratisd_client_dbus/_implementation.py:336-338 | with distinct names the first-occurrence order is the declared order itself |
| DbusImplementation.SortedUnique | src/stratisd_client_dbus/_implementation.py:336-338 | two lists with the same keys, both sorted by first index, are equal: `sorted` with that key has one outcome |
| DbusImplementation.Reorder | src/stratisd_client_dbus/_implementation.py:334-338 | the bad-keys error is raised exactly when the keyword set differs from the declared name set; on success there is one argument per keyword |
| DbusImplementation.ReorderSorted | src/stratisd_client_dbus/_implementation.py:336-338 | for any order of the keys that is sorted by `names.index`, the arguments are the keyword values in that order |
| DbusImplementation.ReorderDistinct | src/stratisd_client_dbus/_implementation.py:336-338 | with distinct names and matching keys, `args[k] == kwargs[names[k]]` for every k |
| DbusImplementation.ReorderPermutes | src/stratisd_client_dbus/_implementation.py:336-338 | with distinct names the (name, argument) pairs are exactly the keyword items, so the arguments are a permutation of the keyword values |
| DbusImplementation.PairsAreItems | src/stratisd_client_dbus/_implementation.py:336-338 | names covering the keys with `args[k] == kwargs[names[k]]` pair up to exactly the dict's items |
| DbusImplementation.MethodArgs | src/stratisd_client_dbus/_implementation.py:328-339 | a keyword set that differs from the declared names is rejected before any transform runs |
| DbusImplementation.MethodArgsSpec | src/stratisd_client_dbus/_implementation.py:328-339 | a generated method with distinct names: it succeeds exactly on the declared key set, and then argument k is the output transform of the input transform of `kwargs[names[k]]` |
| DbusImplementation.CreatePoolSpecs | src/stratisd_client_dbus/_implementation.py:197-203 | `CreatePool` takes name, redundancy, force, devices in that order with joined signature `s(bq)bas`; the redundancy transform is the option encoding with default 0, the other three are the identity |
| DbusImplementation.CreatePoolNames | src/stratisd_client_dbus/_implementation.py:197-203 | the four `CreatePool` names are distinct and are exactly name, redundancy, force, devices |
| DbusImplementation.ManagerInputSigs | src/stratisd_client_dbus/_implementation.py:195-205 | the Manager table has exactly ConfigureSimulator, CreatePool and DestroyPool; ConfigureSimulator takes `denominator` with signature `u` and DestroyPool takes `pool` with signature `o`, both through the identity transform; CreatePool has the table above |
| DbusImplementation.ManagerXformers | src/stratisd_client_dbus/_implementation.py:211 | `XFORMERS` keeps the three methods and maps CreatePool to its names and transformer |
| UdevTest.Rs | tests/dbus/pool/test_udev.py:38-45 | `rs(l)` is `stratis_` followed by exactly l uppercase ASCII letters |
| UdevTest.RsCovers | tests/dbus/pool/test_udev.py:44-45 | every string of that shape is a possible result of `rs(l)` |
| UdevTest.LoopBackDevices.constructor | tests/dbus/pool/test_udev.py:87 | a new manager knows no devices |
| UdevTest.LoopBackDevices.CreateDevice | tests/dbus/pool/test_udev.py:176 | a new device gets a token never handed out before and is attached; nothing else changes |
| UdevTest.LoopBackDevices.Unplug | tests/dbus/pool/test_udev.py:194 | the device is detached and nothing else changes |
| UdevTest.LoopBackDevices.Hotplug | tests/dbus/pool/test_udev.py:211 | the device is attached and nothing else changes |
| UdevTest.LoopBackDevices.GenerateUdevAddEvent | tests/dbus/pool/test_udev.py:287 | a spurious "add" event changes no device state |
| UdevTest.WithNew | tests/dbus/pool/test_udev.py:175-176 | the state after creating devices `lo` to `hi - 1`, a definition with no contract; WithNewAt and WithNewChain state its properties |
| UdevTest.WithNewAt | tests/dbus/pool/test_udev.py:175-176 | after creation the known devices are the old ones plus the new tokens; the old flags are kept and the new devices are attached |
| UdevTest.WithNewChain | tests/dbus/pool/test_udev.py:172-176 | creating devices in two batches is creating them in one |
| UdevTest.Plugged | tests/dbus/pool/test_udev.py:192-194 | setting a set of devices to one flag: the known devices stay the same, the listed known ones get the flag, and every other device keeps its flag |
| UdevTest.PluggedUnion | tests/dbus/pool/test_udev.py:192-194 | setting two sets of devices one after the other is setting their union |
| UdevTest.DeviceFiles | tests/dbus/pool/test_udev.py:72-81 | same length as the tokens, entry k being `device_file(tokens[k])` |
| UdevTest.Insert | tests/dbus/pool/test_udev.py:180 | `pool_data[name] = ts`: the map is updated; a new key goes last; an existing key keeps its place; the keys stay distinct |
| UdevTest.PoolTokens | tests/dbus/pool/test_udev.py:204-208 | one token list per key of `pool_data`, in key order |
| UdevTest.DisjointPoolTokens | tests/dbus/pool/test_udev.py:204-208 | tokens that are distinct in the dict stay distinct in key order |
| UdevTest.Column | tests/dbus/pool/test_udev.py:207-208 | one inner loop pass: pool p's i-th token at index p |
| UdevTest.RoundRobin | tests/dbus/pool/test_udev.py:202-208 | the activation sequence has length `dev_count_pool * number of pools` |
| UdevTest.RoundRobinAt | tests/dbus/pool/test_udev.py:206-208 | the entry at `i*P + p` is pool p's i-th token |
| UdevTest.RoundRobinMember | tests/dbus/pool/test_udev.py:206-208 | a token is in the sequence exactly when it is among the first n tokens of some pool |
| UdevTest.RoundRobinHas | tests/dbus/pool/test_udev.py:206-208 | each of the first n tokens of every pool is in the sequence |
| UdevTest.RoundRobinDistinct | tests/dbus/pool/test_udev.py:206-208 | with distinct tokens the sequence has no repetitions |
| UdevTest.RoundRobinOnce | tests/dbus/pool/test_udev.py:206-208 | with distinct tokens every token of every pool occurs exactly once |
| UdevTest.ActivationSequence | tests/dbus/pool/test_udev.py:202-208 | the nested loops build exactly the round-robin sequence over the pools in key order |
| UdevTest.DropLast | tests/dbus/pool/test_udev.py:210 | Python's `s[:-k]`: the first `len(s) - k` entries of `s`, and nothing when k is 0 or exceeds the length |
| UdevTest.TakeLast | tests/dbus/pool/test_udev.py:221 | Python's `s[-k:]`: the last k entries of `s`, and all of `s` when k is 0 or exceeds the length |
| UdevTest.DropTakeLast | tests/dbus/pool/test_udev.py:210-221 | `s[:-k] + s[-k:] == s` for every k, including Python's k = 0 case |
| UdevTest.SplitColumns | tests/dbus/pool/test_udev.py:210-221 | for P ≥ 1 and n ≥ 1, the suffix is each pool's last token in pool order, and the prefix is the sequence for n - 1 |
| UdevTest.PrefixLacksLast | tests/dbus/pool/test_udev.py:210 | when at least P entries are dropped, no pool's last token is in the prefix |
| UdevTest.PrefixHasEarlier | tests/dbus/pool/test_udev.py:210 | when exactly P entries are dropped, every earlier token of every pool is in the prefix |
| UdevTest.PrefixAllButLast | tests/dbus/pool/test_udev.py:210 | when exactly P entries are dropped, a pool's token is in the prefix exactly when it is not the pool's last |
| UdevTest.NoPools | tests/dbus/pool/test_udev.py:210-221 | with no pools both slices are empty |
| UdevTest.CreateDevices | tests/dbus/pool/test_udev.py:175-176 | `count` new consecutive tokens, all attached, and nothing else changes |
| UdevTest.PoolNames | tests/dbus/pool/test_udev.py:178 | the p-th drawn name is `rs(5)` with the p-th choices |
| UdevTest.InsertFresh | tests/dbus/pool/test_udev.py:173-180 | recording a pool of freshly created devices keeps all tokens in the dict distinct and in range |
| UdevTest.NamesStep | tests/dbus/pool/test_udev.py:178-180 | one pool-creation step: the key set grows by the drawn name, and with distinct names the key order is the draw order |
| UdevTest.CreatePools | tests/dbus/pool/test_udev.py:167-180 | `pool_data` keys are the drawn names (in draw order when distinct); every pool holds `dev_count_pool` fresh attached devices, none shared |
| UdevTest.UnplugEach | tests/dbus/pool/test_udev.py:276-277 | every listed device is detached; nothing else changes |
| UdevTest.HotplugEach | tests/dbus/pool/test_udev.py:221-222 | every listed device is attached; nothing else changes |
| UdevTest.TokenSetStep | tests/dbus/pool/test_udev.py:192-194 | the tokens of one more pool are the earlier tokens plus that pool's |
| UdevTest.UnplugPools | tests/dbus/pool/test_udev.py:191-194 | every device of every pool is detached; nothing else changes |
| UdevTest.CreatedKnown | tests/dbus/pool/test_udev.py:172-194 | every pool token is known to the manager after creation |
| UdevTest.HotplugPrefix | tests/dbus/pool/test_udev.py:210-219 | the final state: hot-plugging the prefix attaches exactly its devices; that each pool's last device stays detached at every step is proved as a loop invariant |
| UdevTest.LastsOutsidePrefix | tests/dbus/pool/test_udev.py:210-219 | each pool's last device is detached after unplugging and is not in the prefix |
| UdevTest.ActivationOutcome | tests/dbus/pool/test_udev.py:210-225 | after the prefix each pool's last device is detached (and, with P entries dropped, exactly that one); after the suffix every device of every pool is attached |
| UdevTest.ActivationToken | tests/dbus/pool/test_udev.py:210-225 | the same outcome for one device of one pool |
| UdevTest.CreatedPools | tests/dbus/pool/test_udev.py:167-187 | after creation the pool tokens are distinct and known, with at most `number_of_pools` pools |
| UdevTest.TestDriver | tests/dbus/pool/test_udev.py:150-233 | the device side of `_test_driver`: the keys of `pool_data` are the drawn names, each pool holds `dev_count_pool` devices created here and shares none, the round-robin sequence, the state after the prefix (each pool missing its last device, exactly that one when names are distinct), and every device attached at the end |
| UdevTest.ReplugRestores | tests/dbus/pool/test_udev.py:275-282 | unplugging and then hot-plugging attached devices restores the state |
| UdevTest.SinglePool | tests/dbus/pool/test_udev.py:254-292 | `_single_pool` on the device side: the tokens are the consecutive devices created here; after unplug, hotplug and spurious events the state is the state right after creation, with every device of the pool attached |
| DeviceMapper.IsSpace | tests/dbus/_dm.py:36 | the characters `str.split()` separates on, those of `str.isspace`; a definition with no contract |
| DeviceMapper.WordLength | tests/dbus/_dm.py:36 | the leading run of non-whitespace ends at the end or at whitespace |
| DeviceMapper.Split | tests/dbus/_dm.py:36 | every piece of `str.split()` is non-empty and free of whitespace; Gaps and SplitUnique show it is the only word list that lays out the text with whitespace gaps |
| DeviceMapper.WordLengthOf | tests/dbus/_dm.py:36 | a word followed by whitespace or the end is one leading run |
| DeviceMapper.SplitWord | tests/dbus/_dm.py:36 | a word followed by whitespace or the end splits off as one piece |
| DeviceMapper.SplitJoin | tests/dbus/_dm.py:36 | splitting words joined by spaces gives back the words |
| DeviceMapper.SplitSpaces | tests/dbus/_dm.py:36 | leading whitespace does not change the split |
| DeviceMapper.SplitInterleave | tests/dbus/_dm.py:36 | splitting any text made of words and whitespace gaps, with non-empty gaps between words, gives back the words |
| DeviceMapper.InterleaveGrow | tests/dbus/_dm.py:36 | one more whitespace character in the first gap is one more character at the front of the text |
| DeviceMapper.Gaps | tests/dbus/_dm.py:36 | every text is its split words laid out with whitespace gaps, non-empty between words, and the first gap is non-empty when the text starts with whitespace |
| DeviceMapper.GapsSpace | tests/dbus/_dm.py:36 | whitespace in front of a laid-out text joins its first gap and keeps the layout |
| DeviceMapper.GapsWord | tests/dbus/_dm.py:36 | a word in front of a laid-out text that is empty or starts with whitespace adds one word after an empty gap |
| DeviceMapper.SplitUnique | tests/dbus/_dm.py:36 | the split is the only word list that lays out the text with whitespace gaps |
| DeviceMapper.IsStratisName | tests/dbus/_dm.py:37 | `startswith('stratis-')`, a definition with no contract |
| DeviceMapper.StratisDevices | tests/dbus/_dm.py:27-40 | every returned name starts with `stratis-`, and there are at most as many as words in the output; StratisDevicesSpec states the rest |
| DeviceMapper.StratisDevicesSpec | tests/dbus/_dm.py:32-40 | the result holds exactly the words of the output starting with `stratis-`, each as often as it occurs in the output, as a subsequence in output order, and is empty on a nonzero status |
| Seqs.FilterCount | tests/dbus/_dm.py:36-38 | filtering keeps every occurrence of a kept element and none of a dropped one |
| DeviceMapper.GetStratisDevices | tests/dbus/_dm.py:27-40 | the loop returns the stratis words of the output, or nothing on a nonzero status |
| DeviceMapper.RemoveFirst | tests/dbus/_dm.py:70 | `list.remove` takes out one occurrence: one shorter, same multiset minus that element |
| DeviceMapper.RemoveFirstAfter | tests/dbus/_dm.py:70 | with no earlier occurrence, `remove` takes out the device being visited |
| DeviceMapper.Pass | tests/dbus/_dm.py:68-69 | a sweep calls `dmsetup remove` once per listed device, in order |
| DeviceMapper.Sweep | tests/dbus/_dm.py:68-70 | a sweep leaves no more devices than it started with, each of them one whose removal failed on that sweep |
| DeviceMapper.AfterSweeps | tests/dbus/_dm.py:66-70 | after n sweeps the list is no longer than at the start, and for n ≥ 1 every device left failed its removal on sweep n |
| DeviceMapper.Trace | tests/dbus/_dm.py:66-69 | the removal calls of the first n sweeps, a definition with no contract; TraceLater and TraceSweeps state its properties |
| DeviceMapper.SweepPrefix | tests/dbus/_dm.py:68-70 | sweeping one more device appends it exactly when its removal fails |
| DeviceMapper.SweepStepRemoved | tests/dbus/_dm.py:69-70 | a successful removal takes that device out of the live list |
| DeviceMapper.SweepStepKept | tests/dbus/_dm.py:69-70 | a failed removal leaves the live list as it was |
| DeviceMapper.SweepOnce | tests/dbus/_dm.py:68-70 | a sweep over a copy leaves the devices whose removal failed, in order, and attempts every device listed at its start once, in order |
| DeviceMapper.RemoveStratisSetup | tests/dbus/_dm.py:54-70 | at most `5n + 1` sweeps; a sweep runs only while devices remain; on exit the list is empty or the count is `max_loops + 1`; remaining devices and calls are those of the sweeps made |
| DeviceMapper.AfterSweepsMember | tests/dbus/_dm.py:69-70 | a device is still listed exactly when it was listed at the start and its removal failed on every sweep so far |
| DeviceMapper.AfterSweepsSubsequence | tests/dbus/_dm.py:69-70 | the remaining list is a subsequence of the initial list |
| DeviceMapper.AllSucceedOneSweep | tests/dbus/_dm.py:68-70 | if every removal succeeds, one sweep empties the list |
| DeviceMapper.NothingToRemove | tests/dbus/_dm.py:60-66 | with no devices there is nothing to sweep and no removal call |
| DeviceMapper.EmptyStaysEmpty | tests/dbus/_dm.py:66 | once the list is empty, later sweeps leave it empty |
| DeviceMapper.CallsOf | tests/dbus/_dm.py:68-69 | the devices a trace attempts on one sweep are at most as many as its calls |
| DeviceMapper.CallsOfAppend | tests/dbus/_dm.py:68-69 | the calls of one sweep in two traces in sequence are those of each, in order |
| DeviceMapper.CallsOfPass | tests/dbus/_dm.py:68-69 | a sweep's calls belong to that sweep only |
| DeviceMapper.PassesStep | tests/dbus/_dm.py:66-69 | the calls of sweep n come after those of the earlier sweeps |
| DeviceMapper.PassesLater | tests/dbus/_dm.py:66-69 | no call is made for a sweep that has not yet run |
| DeviceMapper.PassesAt | tests/dbus/_dm.py:66-69 | sweep p calls, in order, exactly the list it was given |
| DeviceMapper.PassesRange | tests/dbus/_dm.py:66-69 | every call of the first n sweeps is tagged with a sweep number from 1 to n |
| DeviceMapper.TraceRange | tests/dbus/_dm.py:66-69 | the cleanup loop makes calls only for sweeps 1 to n that it has run |
| DeviceMapper.TraceLater | tests/dbus/_dm.py:66-69 | in the cleanup loop, sweeps after the n-th have made no calls |
| DeviceMapper.TraceSweeps | tests/dbus/_dm.py:68 | sweep p attempts each device listed at its start exactly once, in order, because it iterates over a copy |

## Left out

- D-Bus transport and property getters: the `proxy_object.Get` and `getattr(proxy_object, ...)` calls are remote calls. The model stops at the transformed argument list.
- Class construction: building the interface classes with `types.new_class`, filling the namespace and the abstract properties has no data behaviour to state.
- The `ObjectManager`, `Filesystem` and `Pool` tables are not modelled. They are built by the same `Xformers` function as the Manager table.
- `into_dbus_python.xformers`: foreign. Its transforms are opaque function values.
- XformerSpec / MethodArgsSpec: "one element per spec" takes as a precondition that the foreign library returns at least one transform per argument. This is an assumption about foreign code, not something the source guarantees. `XformerTruncates` states what happens otherwise.
- `dmsetup`, `udevadm settle`, `time.sleep` and starting and stopping the daemon are not run. Their outcomes are inputs, or they are omitted.
- DeviceMapper.RemoveStratisSetup: a `dmsetup remove` outcome is a pure function of (device, sweep number). Effects of one removal on others within a sweep are visible only through that function.
- `utf-8` decoding of the `dmsetup ls` output is left out. The decoded text is the input.
- The storage daemon's pool assembly and the `_get_pools` assertions are observations of the daemon. The model states the device side the test arranges, not the pool counts the daemon reports.
- The `_create_pool` call, `_get_pools`, `destroy_devices`, `destroy_all` and the fixture wiring (`setUp`, `addCleanup`, `_clean_up`, `test_*` loops) are left out.
- Random choice in `rs`: the letters are an input function, so only the shape of the string is proved.
- `LoopBackDevices` beyond the attached state: its source file is not part of this model.
  - The class keeps an attached/detached flag per created device and a token counter.
  - Device size (2048) and device files are not modelled. `device_file` is an input function.
- UdevTest.LoopBackDevices.GenerateUdevAddEvent: modelled as changing no device state. Its body is not part of this model, and in the test it only sends an "add" event.
- `tests/dbus/_misc.py` (service start and stop, the hypothesis device-list strategy) is not part of this model.
