/**
 * The incremental-assembly test driver for udev "add" events: pools of
 * loop-back devices are created, every device is unplugged, and the
 * devices are hot-plugged back in a round-robin activation sequence whose
 * last `number_of_pools` entries complete the pools.
 *
 * The daemon, `udevadm settle` and the D-Bus calls are outside the model;
 * the loop-back manager is modelled by the attached/detached state of its
 * devices only.
 */
module UdevTest {
  import opened Seqs

  /** A loop-back device as handed out by the manager. */
  type Token = nat

  /** For every device the manager knows: attached (true) or unplugged (false). */
  type Presence = map<Token, bool>

  /** A character of `string.ascii_uppercase`. */
  type Letter = c: char | 'A' <= c <= 'Z' witness 'A'

  // ---------------------------------------------------------------------
  // rs

  const Prefix: string := "stratis_"

  /** `rs(l)`: the prefix followed by `l` letters; `pick(k)` is the k-th random choice. */
  function Rs(l: nat, pick: nat -> Letter): (r: string)
    ensures |r| == |Prefix| + l
    ensures r[..|Prefix|] == Prefix
    ensures forall k :: |Prefix| <= k < |r| ==> 'A' <= r[k] <= 'Z'
  {
    Prefix + seq(l, (k: nat) => pick(k))
  }

  /** Conversely, every string of that shape is a possible result of `rs`. */
  lemma RsCovers(l: nat, s: string)
    requires |s| == |Prefix| + l && s[..|Prefix|] == Prefix
    requires forall k :: |Prefix| <= k < |s| ==> 'A' <= s[k] <= 'Z'
    ensures exists pick: nat -> Letter :: Rs(l, pick) == s
  {
    var n := |Prefix|;
    var pick: nat -> Letter := (k: nat) => if n + k < |s| then s[n + k] else 'A';
    assert Rs(l, pick) == s by {
      assert s == s[..n] + s[n..];
    }
  }

  // ---------------------------------------------------------------------
  // The device manager, seen through the attached state of its devices

  /** The state after setting every known device of `s` to `b`; unknown ones are ignored. */
  function Plugged(m: Presence, s: set<Token>, b: bool): (r: Presence)
    ensures r.Keys == m.Keys
    ensures forall t :: t in m ==> r[t] == (if t in s then b else m[t])
  {
    map t | t in m :: if t in s then b else m[t]
  }

  /** Setting two sets of devices one after the other is setting their union. */
  lemma PluggedUnion(m: Presence, a: set<Token>, c: set<Token>, b: bool)
    ensures Plugged(Plugged(m, a, b), c, b) == Plugged(m, a + c, b)
  {
  }

  /** `m` together with the new attached devices `lo`, ..., `hi - 1`. */
  function WithNew(m: Presence, lo: nat, hi: nat): (r: Presence)
    decreases hi
  {
    if hi <= lo then m else WithNew(m, lo, hi - 1)[hi - 1 := true]
  }

  class LoopBackDevices {
    var attached: Presence
    /** The token the next created device receives. */
    var next: Token

    ghost predicate Valid()
      reads this
    {
      forall t :: t in attached ==> t < next
    }

    constructor ()
      ensures Valid() && attached == map[] && next == 0
    {
      attached := map[];
      next := 0;
    }

    /** `create_device`: a new device, attached, with a token never handed out before. */
    method CreateDevice() returns (t: Token)
      requires Valid()
      modifies this
      ensures Valid()
      ensures t == old(next) && t !in old(attached)
      ensures attached == WithNew(old(attached), old(next), next) && next == old(next) + 1
    {
      t := next;
      attached := attached[t := true];
      next := next + 1;
      assert attached == WithNew(old(attached), old(next), next);
    }

    /** `unplug`: the device is detached. */
    method Unplug(t: Token)
      requires Valid()
      modifies this
      ensures Valid()
      ensures attached == Plugged(old(attached), {t}, false) && next == old(next)
    {
      attached := Plugged(attached, {t}, false);
    }

    /** `hotplug`: the device is attached again. */
    method Hotplug(t: Token)
      requires Valid()
      modifies this
      ensures Valid()
      ensures attached == Plugged(old(attached), {t}, true) && next == old(next)
    {
      attached := Plugged(attached, {t}, true);
    }

    /** `generate_udev_add_event`: a spurious "add" event that attaches or detaches nothing. */
    method GenerateUdevAddEvent(t: Token)
      requires Valid()
      ensures Valid()
    {
    }
  }

  /** The membership facts of `WithNew`. */
  lemma {:induction false} WithNewAt(m: Presence, lo: nat, hi: nat, t: Token)
    requires forall u :: u in m ==> u < lo
    ensures t in WithNew(m, lo, hi) <==> t in m || lo <= t < hi
    ensures t in m ==> WithNew(m, lo, hi)[t] == m[t]
    ensures lo <= t < hi ==> WithNew(m, lo, hi)[t]
    decreases hi
  {
    if lo < hi {
      WithNewAt(m, lo, hi - 1, t);
    }
  }

  /** Creating devices `lo..mid` and then `mid..hi` creates `lo..hi`. */
  lemma {:induction false} WithNewChain(m: Presence, lo: nat, mid: nat, hi: nat)
    requires lo <= mid <= hi
    ensures WithNew(WithNew(m, lo, mid), mid, hi) == WithNew(m, lo, hi)
    decreases hi
  {
    if mid < hi {
      WithNewChain(m, lo, mid, hi - 1);
    }
  }

  // ---------------------------------------------------------------------
  // _device_files

  /** `_device_files`: the device file of every token, in order. */
  method DeviceFiles(tokens: seq<Token>, deviceFile: Token -> string) returns (rc: seq<string>)
    ensures |rc| == |tokens|
    ensures forall k :: 0 <= k < |tokens| ==> rc[k] == deviceFile(tokens[k])
  {
    rc := [];
    for i := 0 to |tokens|
      invariant |rc| == i
      invariant forall k :: 0 <= k < i ==> rc[k] == deviceFile(tokens[k])
    {
      rc := rc + [deviceFile(tokens[i])];
    }
  }

  // ---------------------------------------------------------------------
  // pool_data: a dict from pool name to its device tokens

  /** A dict as (keys in insertion order, contents). */
  datatype PoolData = PoolData(names: seq<string>, tokens: map<string, seq<Token>>)
  {
    ghost predicate WF()
    {
      Distinct(names) && Elems(names) == tokens.Keys
    }
  }

  /**
   * `pool_data[name] = ts`. A new key goes last; an existing key keeps its
   * place and has its value replaced.
   */
  function Insert(d: PoolData, name: string, ts: seq<Token>): (r: PoolData)
    requires d.WF()
    ensures r.WF()
    ensures r.tokens == d.tokens[name := ts]
    ensures |r.names| == |d.names| + (if name in d.tokens then 0 else 1)
    ensures r.names[..|d.names|] == d.names
  {
    if name in d.tokens then PoolData(d.names, d.tokens[name := ts])
    else
      assert name !in d.names;
      PoolData(d.names + [name], d.tokens[name := ts])
  }

  /** `[pool_data[p] for p in pool_data.keys()]`. */
  function PoolTokens(d: PoolData): (r: seq<seq<Token>>)
    requires d.WF()
    ensures |r| == |d.names|
    ensures forall p :: 0 <= p < |r| ==> d.names[p] in d.tokens && r[p] == d.tokens[d.names[p]]
  {
    seq(|d.names|, p requires 0 <= p < |d.names| => d.tokens[d.names[p]])
  }

  /** No token occurs twice, within a pool or across pools. */
  ghost predicate DistinctTokens(pools: seq<seq<Token>>)
  {
    forall p, q, i, j ::
      0 <= p < |pools| && 0 <= q < |pools| && 0 <= i < |pools[p]| && 0 <= j < |pools[q]| && (p != q || i != j)
      ==> pools[p][i] != pools[q][j]
  }

  /** The same on the dict. */
  ghost predicate DisjointPools(tokens: map<string, seq<Token>>)
  {
    forall a, b, i, j ::
      a in tokens && b in tokens && 0 <= i < |tokens[a]| && 0 <= j < |tokens[b]| && (a != b || i != j)
      ==> tokens[a][i] != tokens[b][j]
  }

  lemma DisjointPoolTokens(d: PoolData)
    requires d.WF() && DisjointPools(d.tokens)
    ensures DistinctTokens(PoolTokens(d))
  {
    var pools := PoolTokens(d);
    forall p, q, i, j | 0 <= p < |pools| && 0 <= q < |pools| && 0 <= i < |pools[p]| && 0 <= j < |pools[q]|
      && (p != q || i != j)
      ensures pools[p][i] != pools[q][j]
    {
      assert p != q ==> d.names[p] != d.names[q];
    }
  }

  // ---------------------------------------------------------------------
  // The activation sequence

  /** Every pool's i-th token, in pool order. */
  function Column(pools: seq<seq<Token>>, i: nat): (r: seq<Token>)
    requires forall p :: 0 <= p < |pools| ==> i < |pools[p]|
    ensures |r| == |pools|
    ensures forall p :: 0 <= p < |pools| ==> r[p] == pools[p][i]
  {
    seq(|pools|, p requires 0 <= p < |pools| => pools[p][i])
  }

  /** The activation sequence for `n` devices per pool: column 0, then column 1, ... */
  function RoundRobin(pools: seq<seq<Token>>, n: nat): (r: seq<Token>)
    requires forall p :: 0 <= p < |pools| ==> n <= |pools[p]|
    ensures |r| == n * |pools|
  {
    if n == 0 then [] else RoundRobin(pools, n - 1) + Column(pools, n - 1)
  }

  /** Entry `i * P + p` is pool p's i-th token: the sequence is round-robin over the pools. */
  lemma {:induction false} RoundRobinAt(pools: seq<seq<Token>>, n: nat, i: nat, p: nat)
    requires forall q :: 0 <= q < |pools| ==> n <= |pools[q]|
    requires i < n && p < |pools|
    ensures i * |pools| + p < |RoundRobin(pools, n)|
    ensures RoundRobin(pools, n)[i * |pools| + p] == pools[p][i]
  {
    var P := |pools|;
    var prev := RoundRobin(pools, n - 1);
    if i == n - 1 {
      assert i * P + p == |prev| + p;
    } else {
      RoundRobinAt(pools, n - 1, i, p);
    }
  }

  /** A token is in the sequence exactly when it is among the first `n` tokens of some pool. */
  lemma {:induction false} RoundRobinMember(pools: seq<seq<Token>>, n: nat, x: Token)
    requires forall q :: 0 <= q < |pools| ==> n <= |pools[q]|
    ensures x in RoundRobin(pools, n) <==> exists p, i :: 0 <= p < |pools| && 0 <= i < n && pools[p][i] == x
  {
    if n > 0 {
      RoundRobinMember(pools, n - 1, x);
      var c := Column(pools, n - 1);
      assert x in c <==> exists p :: 0 <= p < |pools| && pools[p][n - 1] == x;
    }
  }

  /** Each of the first `n` tokens of every pool is in the sequence. */
  lemma {:induction false} RoundRobinHas(pools: seq<seq<Token>>, n: nat, p: nat, i: nat)
    requires forall q :: 0 <= q < |pools| ==> n <= |pools[q]|
    requires p < |pools| && i < n
    ensures pools[p][i] in RoundRobin(pools, n)
  {
    var c := Column(pools, n - 1);
    if i == n - 1 {
      assert c[p] == pools[p][i];
    } else {
      RoundRobinHas(pools, n - 1, p, i);
    }
    assert RoundRobin(pools, n) == RoundRobin(pools, n - 1) + c;
  }

  /** With distinct tokens, the sequence has no repetitions. */
  lemma {:induction false} RoundRobinDistinct(pools: seq<seq<Token>>, n: nat)
    requires forall q :: 0 <= q < |pools| ==> n <= |pools[q]|
    requires DistinctTokens(pools)
    ensures Distinct(RoundRobin(pools, n))
  {
    if n > 0 {
      RoundRobinDistinct(pools, n - 1);
      var prev, c := RoundRobin(pools, n - 1), Column(pools, n - 1);
      forall k, l | 0 <= k < |prev| && 0 <= l < |c| ensures prev[k] != c[l] {
        RoundRobinMember(pools, n - 1, prev[k]);
      }
      DistinctAppend(prev, c);
    }
  }

  /** With distinct tokens, each of the first `n` tokens of every pool occurs exactly once. */
  lemma RoundRobinOnce(pools: seq<seq<Token>>, n: nat, p: nat, i: nat)
    requires forall q :: 0 <= q < |pools| ==> n <= |pools[q]|
    requires DistinctTokens(pools) && p < |pools| && i < n
    ensures multiset(RoundRobin(pools, n))[pools[p][i]] == 1
  {
    RoundRobinDistinct(pools, n);
    RoundRobinAt(pools, n, i, p);
    DistinctOccursOnce(RoundRobin(pools, n), pools[p][i]);
  }

  /** Python's `s[:-k]`; `s[:-0]` is empty. */
  function DropLast<T>(s: seq<T>, k: nat): (r: seq<T>)
    ensures |r| == if k == 0 || |s| < k then 0 else |s| - k
    ensures forall i :: 0 <= i < |r| ==> r[i] == s[i]
  {
    if k == 0 || |s| < k then [] else s[..|s| - k]
  }

  /** Python's `s[-k:]`; `s[-0:]` is all of `s`. */
  function TakeLast<T>(s: seq<T>, k: nat): (r: seq<T>)
    ensures |r| == if k == 0 || |s| < k then |s| else k
    ensures forall i :: 0 <= i < |r| ==> r[i] == s[|s| - |r| + i]
  {
    if k == 0 || |s| < k then s else s[|s| - k..]
  }

  /** The two slices split the sequence, for every `k`. */
  lemma DropTakeLast<T>(s: seq<T>, k: nat)
    ensures DropLast(s, k) + TakeLast(s, k) == s
  {
    if k != 0 && k <= |s| {
      assert s == s[..|s| - k] + s[|s| - k..];
    }
  }

  /** For at least one pool and one device: the suffix is each pool's last token, the prefix the rest. */
  lemma SplitColumns(pools: seq<seq<Token>>, n: nat)
    requires forall q :: 0 <= q < |pools| ==> n <= |pools[q]|
    requires |pools| >= 1 && n >= 1
    ensures TakeLast(RoundRobin(pools, n), |pools|) == Column(pools, n - 1)
    ensures DropLast(RoundRobin(pools, n), |pools|) == RoundRobin(pools, n - 1)
  {
    var prev := RoundRobin(pools, n - 1);
    var s := RoundRobin(pools, n);
    assert s == prev + Column(pools, n - 1);
    assert |s| - |pools| == |prev|;
    assert s[..|prev|] == prev;
    assert s[|prev|..] == Column(pools, n - 1);
  }

  /**
   * Dropping at least one entry per pool leaves no pool's n-th token in the prefix
   * (names that collide make `number_of_pools` exceed the pool count).
   */
  lemma PrefixLacksLast(pools: seq<seq<Token>>, n: nat, k: nat, p: nat)
    requires forall q :: 0 <= q < |pools| ==> n <= |pools[q]|
    requires DistinctTokens(pools) && k >= |pools| && n >= 1 && p < |pools|
    ensures pools[p][n - 1] !in DropLast(RoundRobin(pools, n), k)
  {
    var s, prev := RoundRobin(pools, n), RoundRobin(pools, n - 1);
    var prefix := DropLast(s, k);
    if pools[p][n - 1] in prefix {
      assert s == prev + Column(pools, n - 1);
      assert prefix == prev[..|s| - k];
      assert pools[p][n - 1] in prev;
      RoundRobinMember(pools, n - 1, pools[p][n - 1]);
    }
  }

  /** With one entry dropped per pool, the prefix holds exactly the tokens other than each pool's n-th. */
  lemma PrefixAllButLast(pools: seq<seq<Token>>, n: nat, p: nat, i: nat)
    requires forall q :: 0 <= q < |pools| ==> n <= |pools[q]|
    requires DistinctTokens(pools) && p < |pools| && i < n
    ensures pools[p][i] in DropLast(RoundRobin(pools, n), |pools|) <==> i < n - 1
  {
    if i < n - 1 {
      PrefixHasEarlier(pools, n, p, i);
    } else {
      PrefixLacksLast(pools, n, |pools|, p);
    }
  }

  /** Every token but the n-th of a pool is in the prefix of one entry per pool fewer. */
  lemma PrefixHasEarlier(pools: seq<seq<Token>>, n: nat, p: nat, i: nat)
    requires forall q :: 0 <= q < |pools| ==> n <= |pools[q]|
    requires p < |pools| && i < n - 1
    ensures pools[p][i] in DropLast(RoundRobin(pools, n), |pools|)
  {
    assert DropLast(RoundRobin(pools, n), |pools|) == RoundRobin(pools, n - 1) by {
      SplitColumns(pools, n);
    }
    RoundRobinHas(pools, n - 1, p, i);
  }

  /** Without pools both slices are empty. */
  lemma NoPools(pools: seq<seq<Token>>, n: nat, k: nat)
    requires |pools| == 0
    ensures DropLast(RoundRobin(pools, n), k) == [] && TakeLast(RoundRobin(pools, n), k) == []
  {
  }

  // ---------------------------------------------------------------------
  // The loops of the test driver

  /** `for _ in range(count): device_tokens.append(create_device(2048))`. */
  method CreateDevices(mgr: LoopBackDevices, count: nat) returns (tokens: seq<Token>)
    requires mgr.Valid()
    modifies mgr
    ensures mgr.Valid()
    ensures |tokens| == count && forall k :: 0 <= k < count ==> tokens[k] == old(mgr.next) + k
    ensures mgr.next == old(mgr.next) + count
    ensures mgr.attached == WithNew(old(mgr.attached), old(mgr.next), mgr.next)
  {
    tokens := [];
    for i := 0 to count
      invariant mgr.Valid() && mgr.next == old(mgr.next) + i
      invariant |tokens| == i && forall k :: 0 <= k < i ==> tokens[k] == old(mgr.next) + k
      invariant mgr.attached == WithNew(old(mgr.attached), old(mgr.next), mgr.next)
    {
      ghost var before := mgr.next;
      var t := mgr.CreateDevice();
      WithNewChain(old(mgr.attached), old(mgr.next), before, mgr.next);
      tokens := tokens + [t];
    }
  }

  /** The pool names the driver draws: `rs(5)` once per pool, `picks(p)` being pool p's choices. */
  function PoolNames(numberOfPools: nat, picks: nat -> nat -> Letter): (r: seq<string>)
    ensures |r| == numberOfPools
    ensures forall p :: 0 <= p < numberOfPools ==> r[p] == Rs(5, picks(p))
  {
    seq(numberOfPools, (p: nat) => Rs(5, picks(p)))
  }

  /** The tokens in the dict lie in `[lo, hi)`, each pool holding `count` of them, none twice. */
  ghost predicate FreshPools(tokens: map<string, seq<Token>>, count: nat, lo: nat, hi: nat)
  {
    && DisjointPools(tokens)
    && (forall n :: n in tokens ==> |tokens[n]| == count)
    && (forall n, i :: n in tokens && 0 <= i < |tokens[n]| ==> lo <= tokens[n][i] < hi)
  }

  /** Recording a pool of devices created after all the others keeps the tokens apart. */
  lemma InsertFresh(tokens: map<string, seq<Token>>, name: string, ts: seq<Token>, lo: nat, mid: nat, hi: nat)
    requires lo <= mid && FreshPools(tokens, |ts|, lo, mid)
    requires forall k :: 0 <= k < |ts| ==> ts[k] == mid + k
    requires mid + |ts| == hi
    ensures FreshPools(tokens[name := ts], |ts|, lo, hi)
  {
    var r := tokens[name := ts];
    forall a, b, i, j | a in r && b in r && 0 <= i < |r[a]| && 0 <= j < |r[b]| && (a != b || i != j)
      ensures r[a][i] != r[b][j]
    {
      if a != name && b != name {
        assert r[a] == tokens[a] && r[b] == tokens[b];
      }
    }
  }

  /**
   * The pool-creation loop of `_test_driver`: `dev_count_pool` new devices per
   * pool, recorded under the pool's drawn name. A repeated name replaces the
   * earlier pool's entry.
   */
  method CreatePools(mgr: LoopBackDevices, numberOfPools: nat, devCountPool: nat, picks: nat -> nat -> Letter)
    returns (d: PoolData)
    requires mgr.Valid()
    modifies mgr
    ensures mgr.Valid() && d.WF()
    ensures Elems(d.names) == Elems(PoolNames(numberOfPools, picks))
    ensures Distinct(PoolNames(numberOfPools, picks)) ==> d.names == PoolNames(numberOfPools, picks)
    ensures FreshPools(d.tokens, devCountPool, old(mgr.next), mgr.next)
    ensures mgr.next == old(mgr.next) + numberOfPools * devCountPool
    ensures mgr.attached == WithNew(old(mgr.attached), old(mgr.next), mgr.next)
  {
    ghost var names := PoolNames(numberOfPools, picks);
    d := PoolData([], map[]);
    for p := 0 to numberOfPools
      invariant mgr.Valid() && d.WF()
      invariant Elems(d.names) == Elems(names[..p])
      invariant Distinct(names) ==> d.names == names[..p]
      invariant FreshPools(d.tokens, devCountPool, old(mgr.next), mgr.next)
      invariant mgr.next == old(mgr.next) + p * devCountPool
      invariant mgr.attached == WithNew(old(mgr.attached), old(mgr.next), mgr.next)
    {
      ghost var start := mgr.next;
      var deviceTokens := CreateDevices(mgr, devCountPool);
      WithNewChain(old(mgr.attached), old(mgr.next), start, mgr.next);
      assert (p + 1) * devCountPool == p * devCountPool + devCountPool;
      var poolName := Rs(5, picks(p));
      InsertFresh(d.tokens, poolName, deviceTokens, old(mgr.next), start, mgr.next);
      NamesStep(d, names, p, poolName, deviceTokens);
      d := Insert(d, poolName, deviceTokens);
    }
    assert names[..numberOfPools] == names;
  }

  /** The name bookkeeping of one iteration of the pool-creation loop. */
  lemma NamesStep(d: PoolData, names: seq<string>, p: nat, name: string, ts: seq<Token>)
    requires d.WF() && p < |names| && names[p] == name
    requires Elems(d.names) == Elems(names[..p])
    requires Distinct(names) ==> d.names == names[..p]
    ensures Elems(Insert(d, name, ts).names) == Elems(names[..p + 1])
    ensures Distinct(names) ==> Insert(d, name, ts).names == names[..p + 1]
  {
    var r := Insert(d, name, ts);
    assert names[..p + 1] == names[..p] + [name];
    ElemsAppend(names[..p], [name]);
    if name in d.tokens {
      assert r.names == d.names;
    } else {
      assert r.names == d.names + [name];
      ElemsAppend(d.names, [name]);
    }
    if Distinct(names) {
      assert name !in names[..p];
    }
  }

  /** `for d in device_tokens: unplug(d)`. */
  method UnplugEach(mgr: LoopBackDevices, tokens: seq<Token>)
    requires mgr.Valid()
    modifies mgr
    ensures mgr.Valid() && mgr.next == old(mgr.next)
    ensures mgr.attached == Plugged(old(mgr.attached), Elems(tokens), false)
  {
    for k := 0 to |tokens|
      invariant mgr.Valid() && mgr.next == old(mgr.next)
      invariant mgr.attached == Plugged(old(mgr.attached), Elems(tokens[..k]), false)
    {
      mgr.Unplug(tokens[k]);
      PluggedUnion(old(mgr.attached), Elems(tokens[..k]), {tokens[k]}, false);
      assert tokens[..k + 1] == tokens[..k] + [tokens[k]];
      ElemsAppend(tokens[..k], [tokens[k]]);
    }
    assert tokens[..|tokens|] == tokens;
  }

  /** `for device_token in tokens: hotplug(device_token)`. */
  method HotplugEach(mgr: LoopBackDevices, tokens: seq<Token>)
    requires mgr.Valid()
    modifies mgr
    ensures mgr.Valid() && mgr.next == old(mgr.next)
    ensures mgr.attached == Plugged(old(mgr.attached), Elems(tokens), true)
  {
    for k := 0 to |tokens|
      invariant mgr.Valid() && mgr.next == old(mgr.next)
      invariant mgr.attached == Plugged(old(mgr.attached), Elems(tokens[..k]), true)
    {
      mgr.Hotplug(tokens[k]);
      PluggedUnion(old(mgr.attached), Elems(tokens[..k]), {tokens[k]}, true);
      assert tokens[..k + 1] == tokens[..k] + [tokens[k]];
      ElemsAppend(tokens[..k], [tokens[k]]);
    }
    assert tokens[..|tokens|] == tokens;
  }

  /** The nested loops that build `activation_sequence` over `pool_data.keys()`. */
  method ActivationSequence(d: PoolData, devCountPool: nat) returns (act: seq<Token>)
    requires d.WF()
    requires forall n :: n in d.tokens ==> devCountPool <= |d.tokens[n]|
    ensures act == RoundRobin(PoolTokens(d), devCountPool)
  {
    ghost var pools := PoolTokens(d);
    act := [];
    for i := 0 to devCountPool
      invariant act == RoundRobin(pools, i)
    {
      ghost var column := Column(pools, i);
      for p := 0 to |d.names|
        invariant act == RoundRobin(pools, i) + column[..p]
      {
        assert column[..p + 1] == column[..p] + [d.tokens[d.names[p]][i]];
        act := act + [d.tokens[d.names[p]][i]];
      }
      assert column[..|d.names|] == column;
    }
  }

  /** Every token of every pool. */
  ghost function TokenSet(pools: seq<seq<Token>>): set<Token>
  {
    set p, i | 0 <= p < |pools| && 0 <= i < |pools[p]| :: pools[p][i]
  }

  lemma TokenSetStep(pools: seq<seq<Token>>, p: nat)
    requires p < |pools|
    ensures TokenSet(pools[..p + 1]) == TokenSet(pools[..p]) + Elems(pools[p])
  {
    var a, b := TokenSet(pools[..p + 1]), TokenSet(pools[..p]) + Elems(pools[p]);
    forall t | t in a ensures t in b {
      var q, i :| 0 <= q < p + 1 && 0 <= i < |pools[..p + 1][q]| && pools[..p + 1][q][i] == t;
      if q < p {
        assert pools[..p][q][i] == t;
      }
    }
    forall t | t in b ensures t in a {
      if t in Elems(pools[p]) {
        var i :| 0 <= i < |pools[p]| && pools[p][i] == t;
        assert pools[..p + 1][p][i] == t;
      } else {
        var q, i :| 0 <= q < p && 0 <= i < |pools[..p][q]| && pools[..p][q][i] == t;
        assert pools[..p + 1][q][i] == t;
      }
    }
  }

  /** `for device_tokens in pool_data.values(): for d in device_tokens: unplug(d)`. */
  method UnplugPools(mgr: LoopBackDevices, d: PoolData)
    requires mgr.Valid() && d.WF()
    modifies mgr
    ensures mgr.Valid() && mgr.next == old(mgr.next)
    ensures mgr.attached == Plugged(old(mgr.attached), TokenSet(PoolTokens(d)), false)
  {
    ghost var pools := PoolTokens(d);
    for p := 0 to |d.names|
      invariant mgr.Valid() && mgr.next == old(mgr.next)
      invariant mgr.attached == Plugged(old(mgr.attached), TokenSet(pools[..p]), false)
    {
      UnplugEach(mgr, d.tokens[d.names[p]]);
      PluggedUnion(old(mgr.attached), TokenSet(pools[..p]), Elems(pools[p]), false);
      TokenSetStep(pools, p);
    }
    assert pools[..|d.names|] == pools;
  }

  /** After the pools are created, all of their tokens are known to the manager. */
  lemma CreatedKnown(d: PoolData, m: Presence, count: nat, lo: nat, hi: nat, t: Token)
    requires d.WF() && FreshPools(d.tokens, count, lo, hi)
    requires forall u :: u in m ==> u < lo
    requires t in TokenSet(PoolTokens(d))
    ensures t in WithNew(m, lo, hi)
  {
    WithNewAt(m, lo, hi, t);
  }

  /**
   * The hot-plug loop over the prefix. At every step, each device of `lasts`
   * (detached at the start and absent from the prefix) is still detached, so
   * no pool is complete.
   */
  method HotplugPrefix(mgr: LoopBackDevices, prefix: seq<Token>, ghost lasts: set<Token>)
    requires mgr.Valid()
    requires forall t :: t in lasts ==> t in mgr.attached && !mgr.attached[t] && t !in prefix
    modifies mgr
    ensures mgr.Valid() && mgr.next == old(mgr.next)
    ensures mgr.attached == Plugged(old(mgr.attached), Elems(prefix), true)
  {
    for k := 0 to |prefix|
      invariant mgr.Valid() && mgr.next == old(mgr.next)
      invariant mgr.attached == Plugged(old(mgr.attached), Elems(prefix[..k]), true)
      invariant forall t :: t in lasts ==> t in mgr.attached && !mgr.attached[t]
    {
      mgr.Hotplug(prefix[k]);
      PluggedUnion(old(mgr.attached), Elems(prefix[..k]), {prefix[k]}, true);
      assert prefix[..k + 1] == prefix[..k] + [prefix[k]];
      ElemsAppend(prefix[..k], [prefix[k]]);
    }
    assert prefix[..|prefix|] == prefix;
  }

  /**
   * The outcome of the two hot-plug loops from the all-unplugged state `m`:
   * after the prefix each pool lacks its last device (and, with one entry
   * dropped per pool, exactly that one); after the suffix every device is attached.
   */
  lemma ActivationOutcome(pools: seq<seq<Token>>, n: nat, k: nat, m: Presence)
    requires forall q :: 0 <= q < |pools| ==> n <= |pools[q]|
    requires DistinctTokens(pools) && k >= |pools|
    requires forall t :: t in TokenSet(pools) ==> t in m && !m[t]
    ensures var s := RoundRobin(pools, n);
      var a := Plugged(m, Elems(DropLast(s, k)), true);
      var b := Plugged(a, Elems(TakeLast(s, k)), true);
      forall p, i :: 0 <= p < |pools| && 0 <= i < n ==>
        && pools[p][i] in a
        && (i == n - 1 ==> !a[pools[p][i]])
        && (|pools| == k ==> (a[pools[p][i]] <==> i < n - 1))
        && b[pools[p][i]]
  {
    forall p, i | 0 <= p < |pools| && 0 <= i < n {
      ActivationToken(pools, n, k, m, p, i);
    }
  }

  /** The outcome for pool `p`'s `i`-th device. */
  lemma ActivationToken(pools: seq<seq<Token>>, n: nat, k: nat, m: Presence, p: nat, i: nat)
    requires forall q :: 0 <= q < |pools| ==> n <= |pools[q]|
    requires DistinctTokens(pools) && k >= |pools|
    requires forall t :: t in TokenSet(pools) ==> t in m && !m[t]
    requires p < |pools| && i < n
    ensures var s := RoundRobin(pools, n);
      var a := Plugged(m, Elems(DropLast(s, k)), true);
      var t := pools[p][i];
      && t in a
      && (i == n - 1 ==> !a[t])
      && (|pools| == k ==> (a[t] <==> i < n - 1))
      && Plugged(a, Elems(TakeLast(s, k)), true)[t]
  {
    var s := RoundRobin(pools, n);
    var prefix, suffix := DropLast(s, k), TakeLast(s, k);
    var t := pools[p][i];
    assert t in TokenSet(pools);
    DropTakeLast(s, k);
    RoundRobinHas(pools, n, p, i);
    assert t in prefix + suffix;
    if i == n - 1 {
      PrefixLacksLast(pools, n, k, p);
    }
    if |pools| == k {
      PrefixAllButLast(pools, n, p, i);
    }
    PluggedTwice(m, prefix, suffix, t);
  }

  /** A detached device is attached by the first of two hot-plug runs exactly when that run lists it, and after both when either does. */
  lemma PluggedTwice(m: Presence, prefix: seq<Token>, suffix: seq<Token>, t: Token)
    requires t in m && !m[t]
    ensures var a := Plugged(m, Elems(prefix), true);
      && t in a && (a[t] <==> t in prefix)
      && (t in prefix + suffix ==> Plugged(a, Elems(suffix), true)[t])
  {
  }

  /** What the pool-creation loop leaves for the rest of the driver. */
  lemma CreatedPools(d: PoolData, m: Presence, count: nat, lo: nat, hi: nat, numberOfPools: nat, picks: nat -> nat -> Letter)
    requires d.WF() && FreshPools(d.tokens, count, lo, hi)
    requires forall u :: u in m ==> u < lo
    requires Elems(d.names) == Elems(PoolNames(numberOfPools, picks))
    ensures DistinctTokens(PoolTokens(d))
    ensures |PoolTokens(d)| <= numberOfPools
    ensures forall t :: t in TokenSet(PoolTokens(d)) ==> t in WithNew(m, lo, hi)
  {
    DisjointPoolTokens(d);
    forall t | t in TokenSet(PoolTokens(d)) ensures t in WithNew(m, lo, hi) {
      CreatedKnown(d, m, count, lo, hi, t);
    }
    DistinctCard(d.names);
    ElemsCard(PoolNames(numberOfPools, picks));
  }

  /** Each pool's last device is detached after unplugging and absent from the prefix. */
  lemma LastsOutsidePrefix(pools: seq<seq<Token>>, n: nat, k: nat, m: Presence)
    requires forall q :: 0 <= q < |pools| ==> n <= |pools[q]|
    requires DistinctTokens(pools) && k >= |pools| && n >= 1
    requires forall t :: t in TokenSet(pools) ==> t in m && !m[t]
    ensures forall t :: t in Elems(Column(pools, n - 1)) ==>
      t in m && !m[t] && t !in DropLast(RoundRobin(pools, n), k)
  {
    forall t | t in Elems(Column(pools, n - 1))
      ensures t in m && !m[t] && t !in DropLast(RoundRobin(pools, n), k)
    {
      var p :| 0 <= p < |pools| && Column(pools, n - 1)[p] == t;
      assert pools[p][n - 1] in TokenSet(pools);
      PrefixLacksLast(pools, n, k, p);
    }
  }

  /**
   * `_test_driver` on the device side: create the pools, unplug every device,
   * hot-plug the activation sequence without its last `number_of_pools`
   * entries, then those entries. `afterPrefix` is the state between the two
   * hot-plug loops.
   */
  method TestDriver(mgr: LoopBackDevices, numberOfPools: nat, devCountPool: nat, picks: nat -> nat -> Letter)
    returns (d: PoolData, act: seq<Token>, ghost afterPrefix: Presence)
    requires mgr.Valid()
    modifies mgr
    ensures mgr.Valid() && d.WF()
    ensures Elems(d.names) == Elems(PoolNames(numberOfPools, picks))
    ensures Distinct(PoolNames(numberOfPools, picks)) ==> d.names == PoolNames(numberOfPools, picks)
    ensures FreshPools(d.tokens, devCountPool, old(mgr.next), mgr.next)
    ensures forall n :: n in d.tokens ==> |d.tokens[n]| == devCountPool
    ensures act == RoundRobin(PoolTokens(d), devCountPool)
    ensures var pools := PoolTokens(d);
      forall p, i :: 0 <= p < |pools| && 0 <= i < devCountPool ==>
        && pools[p][i] in afterPrefix
        && (i == devCountPool - 1 ==> !afterPrefix[pools[p][i]])
        && (|pools| == numberOfPools ==> (afterPrefix[pools[p][i]] <==> i < devCountPool - 1))
        && pools[p][i] in mgr.attached && mgr.attached[pools[p][i]]
    ensures mgr.next == old(mgr.next) + numberOfPools * devCountPool
    ensures afterPrefix == Plugged(
      Plugged(WithNew(old(mgr.attached), old(mgr.next), mgr.next), TokenSet(PoolTokens(d)), false),
      Elems(DropLast(act, numberOfPools)), true)
    ensures mgr.attached == Plugged(afterPrefix, Elems(TakeLast(act, numberOfPools)), true)
  {
    d := CreatePools(mgr, numberOfPools, devCountPool, picks);
    ghost var pools := PoolTokens(d);
    CreatedPools(d, old(mgr.attached), devCountPool, old(mgr.next), mgr.next, numberOfPools, picks);

    UnplugPools(mgr, d);
    ghost var unplugged := mgr.attached;

    act := ActivationSequence(d, devCountPool);
    var prefix := DropLast(act, numberOfPools);
    ghost var lasts: set<Token> := {};
    if devCountPool >= 1 {
      LastsOutsidePrefix(pools, devCountPool, numberOfPools, unplugged);
      lasts := Elems(Column(pools, devCountPool - 1));
    }
    HotplugPrefix(mgr, prefix, lasts);
    afterPrefix := mgr.attached;

    HotplugEach(mgr, TakeLast(act, numberOfPools));
    ActivationOutcome(pools, devCountPool, numberOfPools, unplugged);
  }

  /** Unplugging and then hot-plugging attached devices restores the state. */
  lemma ReplugRestores(m: Presence, s: set<Token>)
    requires forall t :: t in s ==> t in m && m[t]
    ensures Plugged(Plugged(m, s, false), s, true) == m
  {
  }

  /**
   * `_single_pool` on the device side: create the devices, unplug them all,
   * hot-plug them all, then send `num_hotplugs` rounds of spurious "add"
   * events. The result is the state right after creation: every new device
   * attached and nothing else changed.
   */
  method SinglePool(mgr: LoopBackDevices, numDevices: nat, numHotplugs: nat) returns (tokens: seq<Token>)
    requires mgr.Valid()
    modifies mgr
    ensures mgr.Valid()
    ensures |tokens| == numDevices && Distinct(tokens)
    ensures forall k :: 0 <= k < |tokens| ==> tokens[k] !in old(mgr.attached)
    ensures forall k :: 0 <= k < |tokens| ==> tokens[k] == old(mgr.next) + k
    ensures forall k :: 0 <= k < |tokens| ==> tokens[k] in mgr.attached && mgr.attached[tokens[k]]
    ensures mgr.next == old(mgr.next) + numDevices
    ensures mgr.attached == WithNew(old(mgr.attached), old(mgr.next), mgr.next)
  {
    tokens := CreateDevices(mgr, numDevices);
    ghost var created := mgr.attached;
    forall t | t in Elems(tokens) ensures t in created && created[t] {
      WithNewAt(old(mgr.attached), old(mgr.next), mgr.next, t);
    }
    UnplugEach(mgr, tokens);
    HotplugEach(mgr, tokens);
    ReplugRestores(created, Elems(tokens));
    for h := 0 to numHotplugs
      modifies {}
    {
      for k := 0 to |tokens|
        modifies {}
      {
        mgr.GenerateUdevAddEvent(tokens[k]);
      }
    }
  }
}
