/**
 * Device-mapper cleanup of the test suite: list the stratis devices that
 * `dmsetup ls` reports, then remove them in repeated sweeps, because a
 * table that another table depends on cannot be removed before it.
 *
 * `dmsetup` is not run: its exit status and decoded output, and the outcome
 * of every `dmsetup remove`, are inputs.
 */
module DeviceMapper {
  import opened Seqs

  // ---------------------------------------------------------------------
  // str.split()

  /** The characters `str.split()` without arguments separates on (those of `str.isspace`). */
  predicate IsSpace(c: char)
  {
    || c == ' '
    || '\t' <= c <= '\r'
    || '\U{1c}' <= c <= '\U{1f}'
    || c == '\U{85}' || c == '\U{a0}' || c == '\U{1680}'
    || '\U{2000}' <= c <= '\U{200a}'
    || c == '\U{2028}' || c == '\U{2029}' || c == '\U{202f}' || c == '\U{205f}' || c == '\U{3000}'
  }

  /** A piece of `str.split()` output: non-empty and free of whitespace. */
  predicate IsWord(w: string)
  {
    w != [] && forall k :: 0 <= k < |w| ==> !IsSpace(w[k])
  }

  /** The length of the leading run of non-whitespace characters. */
  function WordLength(s: string): (n: nat)
    ensures n <= |s|
    ensures forall k :: 0 <= k < n ==> !IsSpace(s[k])
    ensures n == |s| || IsSpace(s[n])
  {
    if s == [] || IsSpace(s[0]) then 0 else 1 + WordLength(s[1..])
  }

  /** `str.split()`: the maximal runs of non-whitespace, in order. */
  function Split(s: string): (ws: seq<string>)
    ensures forall k :: 0 <= k < |ws| ==> IsWord(ws[k])
    decreases |s|
  {
    if s == [] then []
    else if IsSpace(s[0]) then Split(s[1..])
    else
      var n := WordLength(s);
      [s[..n]] + Split(s[n..])
  }

  /** The words separated by single spaces. */
  function JoinSpace(ws: seq<string>): (r: string)
  {
    if ws == [] then "" else if |ws| == 1 then ws[0] else ws[0] + " " + JoinSpace(ws[1..])
  }

  lemma {:induction false} WordLengthOf(w: string, rest: string)
    requires IsWord(w) && (rest == [] || IsSpace(rest[0]))
    ensures WordLength(w + rest) == |w|
  {
    if |w| > 1 {
      assert (w + rest)[1..] == w[1..] + rest;
      WordLengthOf(w[1..], rest);
    } else {
      assert (w + rest)[1..] == rest;
    }
  }

  /** A word followed by whitespace or the end splits off as one piece. */
  lemma SplitWord(w: string, rest: string)
    requires IsWord(w) && (rest == [] || IsSpace(rest[0]))
    ensures Split(w + rest) == [w] + Split(rest)
  {
    WordLengthOf(w, rest);
    assert (w + rest)[..|w|] == w;
    assert (w + rest)[|w|..] == rest;
  }

  /** Splitting undoes joining with spaces. */
  lemma {:induction false} SplitJoin(ws: seq<string>)
    requires forall k :: 0 <= k < |ws| ==> IsWord(ws[k])
    ensures Split(JoinSpace(ws)) == ws
  {
    if |ws| == 1 {
      SplitWord(ws[0], "");
      assert ws[0] + "" == ws[0];
    } else if |ws| > 1 {
      var rest := JoinSpace(ws[1..]);
      assert ws[0] + " " + rest == ws[0] + (" " + rest);
      SplitWord(ws[0], " " + rest);
      assert (" " + rest)[1..] == rest;
      SplitJoin(ws[1..]);
      assert ws == [ws[0]] + ws[1..];
    }
  }

  /** A run of whitespace, possibly empty. */
  predicate AllSpace(s: string)
  {
    forall k :: 0 <= k < |s| ==> IsSpace(s[k])
  }

  /** `gaps[0] + words[0] + gaps[1] + ... + words[n - 1] + gaps[n]`. */
  function Interleave(words: seq<string>, gaps: seq<string>): (r: string)
    requires |gaps| == |words| + 1
  {
    if words == [] then gaps[0] else gaps[0] + words[0] + Interleave(words[1..], gaps[1..])
  }

  /**
   * `words` with `gaps` around and between them make up a text: every gap is
   * whitespace and the gaps between two words are not empty.
   */
  predicate Layout(words: seq<string>, gaps: seq<string>)
  {
    && |gaps| == |words| + 1
    && (forall k :: 0 <= k < |words| ==> IsWord(words[k]))
    && (forall k :: 0 <= k < |gaps| ==> AllSpace(gaps[k]))
    && (forall k :: 0 < k < |words| ==> gaps[k] != [])
  }

  /** Leading whitespace does not change the split. */
  lemma {:induction false} SplitSpaces(sp: string, t: string)
    requires AllSpace(sp)
    ensures Split(sp + t) == Split(t)
  {
    if sp != [] {
      assert (sp + t)[0] == sp[0];
      assert (sp + t)[1..] == sp[1..] + t;
      SplitSpaces(sp[1..], t);
    } else {
      assert sp + t == t;
    }
  }

  /** Splitting any text laid out as words and whitespace gives back the words. */
  lemma {:induction false} SplitInterleave(words: seq<string>, gaps: seq<string>)
    requires Layout(words, gaps)
    ensures Split(Interleave(words, gaps)) == words
  {
    if words == [] {
      SplitSpaces(gaps[0], "");
      assert gaps[0] + "" == gaps[0];
    } else {
      var rest := Interleave(words[1..], gaps[1..]);
      assert Layout(words[1..], gaps[1..]);
      assert rest == [] || IsSpace(rest[0]) by {
        if |words| > 1 {
          assert rest == gaps[1] + words[1] + Interleave(words[2..], gaps[2..]);
          assert rest[0] == gaps[1][0];
        } else {
          assert rest == gaps[1];
        }
      }
      assert Interleave(words, gaps) == gaps[0] + (words[0] + rest);
      SplitSpaces(gaps[0], words[0] + rest);
      SplitWord(words[0], rest);
      SplitInterleave(words[1..], gaps[1..]);
      assert words == [words[0]] + words[1..];
    }
  }

  /** A longer first gap lengthens the text at its front. */
  lemma InterleaveGrow(words: seq<string>, c: char, gaps: seq<string>)
    requires |gaps| == |words| + 1
    ensures Interleave(words, [[c] + gaps[0]] + gaps[1..]) == [c] + Interleave(words, gaps)
  {
    var g := [[c] + gaps[0]] + gaps[1..];
    assert g[0] == [c] + gaps[0] && g[1..] == gaps[1..];
    if words != [] {
      var tail := words[0] + Interleave(words[1..], gaps[1..]);
      assert Interleave(words, g) == g[0] + tail;
      assert Interleave(words, gaps) == gaps[0] + tail;
    }
  }

  /**
   * The whitespace of `s` around and between the words `str.split()` finds:
   * every text is laid out as its split words and these gaps.
   */
  function Gaps(s: string): (gaps: seq<string>)
    ensures Layout(Split(s), gaps)
    ensures Interleave(Split(s), gaps) == s
    ensures s != [] && IsSpace(s[0]) ==> gaps[0] != []
    decreases |s|
  {
    if s == [] then [""]
    else if IsSpace(s[0]) then
      var g := Gaps(s[1..]);
      assert Split(s) == Split(s[1..]);
      GapsSpace(s[0], s[1..], Split(s[1..]), g);
      assert s == [s[0]] + s[1..];
      [[s[0]] + g[0]] + g[1..]
    else
      var n := WordLength(s);
      var g := Gaps(s[n..]);
      assert Split(s) == [s[..n]] + Split(s[n..]);
      GapsWord(s[..n], s[n..], Split(s[n..]), g);
      assert s == s[..n] + s[n..];
      [""] + g
  }

  /** Whitespace in front of a laid-out text joins its first gap. */
  lemma GapsSpace(c: char, t: string, words: seq<string>, g: seq<string>)
    requires IsSpace(c) && Layout(words, g) && Interleave(words, g) == t
    ensures var r := [[c] + g[0]] + g[1..];
      Layout(words, r) && Interleave(words, r) == [c] + t && r[0] != []
  {
    var r := [[c] + g[0]] + g[1..];
    assert r[1..] == g[1..];
    assert AllSpace(r[0]) by {
      assert forall k :: 1 <= k < |r[0]| ==> r[0][k] == g[0][k - 1];
    }
    assert forall k :: 0 < k < |r| ==> r[k] == g[k];
    InterleaveGrow(words, c, g);
  }

  /** A word in front of a laid-out text that is empty or starts with whitespace comes after an empty gap. */
  lemma GapsWord(w: string, t: string, words: seq<string>, g: seq<string>)
    requires IsWord(w) && Layout(words, g) && Interleave(words, g) == t
    requires t == [] || IsSpace(t[0])
    requires t != [] && IsSpace(t[0]) ==> g[0] != []
    requires words != [] ==> t != []
    ensures var r := [""] + g;
      Layout([w] + words, r) && Interleave([w] + words, r) == w + t
  {
    var r, ws := [""] + g, [w] + words;
    assert r[1..] == g && ws[1..] == words;
    assert forall k :: 0 < k < |r| ==> r[k] == g[k - 1];
    assert forall k :: 0 < k < |ws| ==> ws[k] == words[k - 1];
    assert Interleave(ws, r) == "" + w + t;
  }

  /** The split of a text is the only list of words it can be laid out with. */
  lemma SplitUnique(s: string, words: seq<string>, gaps: seq<string>)
    requires Layout(words, gaps) && Interleave(words, gaps) == s
    ensures words == Split(s)
  {
    SplitInterleave(words, gaps);
  }

  // ---------------------------------------------------------------------
  // _get_stratis_devices

  const StratisPrefix: string := "stratis-"

  /** `name.startswith('stratis-')`. */
  predicate IsStratisName(w: string)
  {
    |StratisPrefix| <= |w| && w[..|StratisPrefix|] == StratisPrefix
  }

  /** What `_get_stratis_devices` returns for the given result of `dmsetup ls`. */
  function StratisDevices(returncode: int, stdout: string): (r: seq<string>)
    ensures forall k :: 0 <= k < |r| ==> IsStratisName(r[k])
    ensures |r| <= |Split(stdout)|
  {
    if returncode == 0 then Filter(Split(stdout), IsStratisName) else []
  }

  /**
   * The devices are exactly the words of the output that start with the
   * prefix, in their order, and there are none on a nonzero status.
   */
  lemma StratisDevicesSpec(returncode: int, stdout: string, x: string)
    ensures x in StratisDevices(returncode, stdout) <==> returncode == 0 && x in Split(stdout) && IsStratisName(x)
    ensures Subsequence(StratisDevices(returncode, stdout), Split(stdout))
    ensures returncode != 0 ==> StratisDevices(returncode, stdout) == []
    ensures returncode == 0 ==>
      multiset(StratisDevices(returncode, stdout))[x] == if IsStratisName(x) then multiset(Split(stdout))[x] else 0
  {
    FilterMember(Split(stdout), IsStratisName, x);
    FilterCount(Split(stdout), IsStratisName, x);
    FilterSubsequence(Split(stdout), IsStratisName);
    if returncode != 0 {
      assert Subsequence([], Split(stdout));
    }
  }

  /** `_get_stratis_devices`, the output of `dmsetup ls` given as its status and decoded text. */
  method GetStratisDevices(returncode: int, stdout: string) returns (devices: seq<string>)
    ensures devices == StratisDevices(returncode, stdout)
  {
    devices := [];
    if returncode == 0 {
      var words := Split(stdout);
      for k := 0 to |words|
        invariant devices == Filter(words[..k], IsStratisName)
      {
        assert words[..k + 1] == words[..k] + [words[k]];
        FilterAppend(words[..k], [words[k]], IsStratisName);
        if IsStratisName(words[k]) {
          devices := devices + [words[k]];
        }
      }
      assert words[..|words|] == words;
    }
  }

  // ---------------------------------------------------------------------
  // remove_stratis_setup

  /** `list.remove(x)`: drop the first occurrence. */
  function RemoveFirst(s: seq<string>, x: string): (r: seq<string>)
    requires x in s
    ensures |r| == |s| - 1
    ensures multiset(r) == multiset(s) - multiset{x}
  {
    if s[0] == x then
      assert s == [s[0]] + s[1..];
      s[1..]
    else
      assert s == [s[0]] + s[1..];
      [s[0]] + RemoveFirst(s[1..], x)
  }

  /** When `x` does not occur in `a`, its first occurrence in `a + b` is the head of `b`. */
  lemma {:induction false} RemoveFirstAfter(a: seq<string>, b: seq<string>, x: string)
    requires x !in a && b != [] && b[0] == x
    ensures x in a + b && RemoveFirst(a + b, x) == a + b[1..]
  {
    if a == [] {
      assert a + b == b;
    } else {
      assert (a + b)[1..] == a[1..] + b;
      RemoveFirstAfter(a[1..], b, x);
    }
  }

  /** The devices a removal on sweep `pass` leaves in place. */
  function Survivor(succeeds: (string, nat) -> bool, pass: nat): (keep: string -> bool)
  {
    x => !succeeds(x, pass)
  }

  /** The list after sweep `pass`: every device of the list attempted once, in order. */
  function Sweep(s: seq<string>, pass: nat, succeeds: (string, nat) -> bool): (r: seq<string>)
    ensures |r| <= |s|
    ensures forall k :: 0 <= k < |r| ==> !succeeds(r[k], pass)
  {
    Filter(s, Survivor(succeeds, pass))
  }

  /** The list after the first `n` sweeps. */
  function AfterSweeps(s: seq<string>, n: nat, succeeds: (string, nat) -> bool): (r: seq<string>)
    ensures |r| <= |s|
    ensures n > 0 ==> forall k :: 0 <= k < |r| ==> !succeeds(r[k], n)
  {
    if n == 0 then s else Sweep(AfterSweeps(s, n - 1, succeeds), n, succeeds)
  }

  /** The `dmsetup remove` calls of one sweep: each device with the sweep's number. */
  function Pass<T>(s: seq<T>, pass: nat): (r: seq<(T, nat)>)
    ensures |r| == |s|
    ensures forall k :: 0 <= k < |s| ==> r[k] == (s[k], pass)
  {
    seq(|s|, k requires 0 <= k < |s| => (s[k], pass))
  }

  /** The calls of sweeps 1 to `n`, where sweep `k` visits the list `lists(k - 1)`. */
  function Passes<T>(lists: nat -> seq<T>, n: nat): (r: seq<(T, nat)>)
  {
    if n == 0 then [] else Passes(lists, n - 1) + Pass(lists(n - 1), n)
  }

  /** The `dmsetup remove` calls of the first `n` sweeps. */
  function Trace(s: seq<string>, n: nat, succeeds: (string, nat) -> bool): (r: seq<(string, nat)>)
  {
    Passes(k => AfterSweeps(s, k, succeeds), n)
  }

  lemma SweepPrefix(copy: seq<string>, i: nat, pass: nat, succeeds: (string, nat) -> bool)
    requires i < |copy|
    ensures Sweep(copy[..i + 1], pass, succeeds) ==
      Sweep(copy[..i], pass, succeeds) + (if succeeds(copy[i], pass) then [] else [copy[i]])
  {
    var keep := Survivor(succeeds, pass);
    assert copy[..i + 1] == copy[..i] + [copy[i]];
    FilterAppend(copy[..i], [copy[i]], keep);
    assert Filter([copy[i]], keep) == (if keep(copy[i]) then [copy[i]] else []) + Filter([], keep);
  }

  /** A successful removal in the sweep takes out the device being visited. */
  lemma SweepStepRemoved(copy: seq<string>, i: nat, pass: nat, succeeds: (string, nat) -> bool)
    requires i < |copy| && succeeds(copy[i], pass)
    ensures copy[i] in Sweep(copy[..i], pass, succeeds) + copy[i..]
    ensures RemoveFirst(Sweep(copy[..i], pass, succeeds) + copy[i..], copy[i])
      == Sweep(copy[..i + 1], pass, succeeds) + copy[i + 1..]
  {
    var a := Sweep(copy[..i], pass, succeeds);
    SweepPrefix(copy, i, pass, succeeds);
    assert copy[i] !in a by {
      forall k | 0 <= k < |a| ensures a[k] != copy[i] {
        assert Survivor(succeeds, pass)(a[k]);
      }
    }
    assert copy[i..][1..] == copy[i + 1..];
    RemoveFirstAfter(a, copy[i..], copy[i]);
  }

  /** A failed removal leaves the list as it was. */
  lemma SweepStepKept(copy: seq<string>, i: nat, pass: nat, succeeds: (string, nat) -> bool)
    requires i < |copy| && !succeeds(copy[i], pass)
    ensures Sweep(copy[..i], pass, succeeds) + copy[i..] == Sweep(copy[..i + 1], pass, succeeds) + copy[i + 1..]
  {
    SweepPrefix(copy, i, pass, succeeds);
    assert copy[i..] == [copy[i]] + copy[i + 1..];
  }

  /** One more visited device adds one call to the sweep's record. */
  lemma PassStep(copy: seq<string>, i: nat, pass: nat)
    requires i < |copy|
    ensures Pass(copy[..i + 1], pass) == Pass(copy[..i], pass) + [(copy[i], pass)]
  {
  }

  /**
   * `for dev in list(devices): if _remove_device(dev): devices.remove(dev)`:
   * a sweep over a copy of the list, with the `dmsetup remove` calls it makes.
   */
  method SweepOnce(devices: seq<string>, pass: nat, succeeds: (string, nat) -> bool)
    returns (remaining: seq<string>, calls: seq<(string, nat)>)
    ensures remaining == Sweep(devices, pass, succeeds)
    ensures calls == Pass(devices, pass)
  {
    var copy := devices;
    remaining := devices;
    calls := [];
    for i := 0 to |copy|
      invariant remaining == Sweep(copy[..i], pass, succeeds) + copy[i..]
      invariant calls == Pass(copy[..i], pass)
    {
      var dev := copy[i];
      PassStep(copy, i, pass);
      calls := calls + [(dev, pass)];
      if succeeds(dev, pass) {
        SweepStepRemoved(copy, i, pass, succeeds);
        remaining := RemoveFirst(remaining, dev);
      } else {
        SweepStepKept(copy, i, pass, succeeds);
      }
    }
    assert copy[..|copy|] == copy;
  }

  /**
   * `remove_stratis_setup`: at most `5 * n + 1` sweeps over the devices that
   * `dmsetup ls` reported, each sweep attempting every device still listed,
   * until none is left. `calls` lists the `dmsetup remove` invocations as
   * (device, sweep number).
   */
  method RemoveStratisSetup(returncode: int, stdout: string, succeeds: (string, nat) -> bool)
    returns (attempts: nat, devices: seq<string>, calls: seq<(string, nat)>)
    ensures var initial := StratisDevices(returncode, stdout);
      && attempts <= 5 * |initial| + 1
      && (attempts == 0 || AfterSweeps(initial, attempts - 1, succeeds) != [])
      && (devices == [] || attempts == 5 * |initial| + 1)
      && devices == AfterSweeps(initial, attempts, succeeds)
      && calls == Trace(initial, attempts, succeeds)
  {
    attempts := 0;
    devices := GetStratisDevices(returncode, stdout);
    ghost var initial := devices;
    var maxLoops := |devices| * 5;
    calls := [];
    while |devices| > 0 && attempts <= maxLoops
      invariant attempts <= maxLoops + 1
      invariant attempts == 0 || AfterSweeps(initial, attempts - 1, succeeds) != []
      invariant devices == AfterSweeps(initial, attempts, succeeds)
      invariant calls == Trace(initial, attempts, succeeds)
      decreases maxLoops + 1 - attempts
    {
      attempts := attempts + 1;
      var passCalls;
      devices, passCalls := SweepOnce(devices, attempts, succeeds);
      calls := calls + passCalls;
    }
  }

  // ---------------------------------------------------------------------
  // What the sweeps guarantee

  /** A device is still listed exactly when its removal failed on every sweep so far. */
  lemma {:induction false} AfterSweepsMember(s: seq<string>, n: nat, succeeds: (string, nat) -> bool, x: string)
    ensures x in AfterSweeps(s, n, succeeds) <==> x in s && forall p :: 1 <= p <= n ==> !succeeds(x, p)
  {
    if n > 0 {
      AfterSweepsMember(s, n - 1, succeeds, x);
      FilterMember(AfterSweeps(s, n - 1, succeeds), Survivor(succeeds, n), x);
    }
  }

  /** The remaining list keeps the order of the initial one. */
  lemma {:induction false} AfterSweepsSubsequence(s: seq<string>, n: nat, succeeds: (string, nat) -> bool)
    ensures Subsequence(AfterSweeps(s, n, succeeds), s)
  {
    if n == 0 {
      SubsequenceRefl(s);
    } else {
      AfterSweepsSubsequence(s, n - 1, succeeds);
      FilterSubsequence(AfterSweeps(s, n - 1, succeeds), Survivor(succeeds, n));
      SubsequenceTrans(AfterSweeps(s, n, succeeds), AfterSweeps(s, n - 1, succeeds), s);
    }
  }

  /** When every removal succeeds, one sweep empties the list. */
  lemma AllSucceedOneSweep(s: seq<string>, succeeds: (string, nat) -> bool)
    requires forall x :: succeeds(x, 1)
    ensures AfterSweeps(s, 1, succeeds) == []
  {
    FilterNone(s, Survivor(succeeds, 1));
  }

  /** An empty list is never swept and no removal is attempted. */
  lemma {:induction false} NothingToRemove(n: nat, succeeds: (string, nat) -> bool)
    ensures AfterSweeps([], n, succeeds) == [] && Trace([], n, succeeds) == []
  {
    if n > 0 {
      NothingToRemove(n - 1, succeeds);
      assert Pass(AfterSweeps([], n - 1, succeeds), n) == [];
      assert Trace([], n, succeeds) == Trace([], n - 1, succeeds) + Pass(AfterSweeps([], n - 1, succeeds), n);
    }
  }

  /** The devices a list of calls attempts on sweep `p`, in order. */
  function CallsOf<T>(calls: seq<(T, nat)>, p: nat): (r: seq<T>)
    ensures |r| <= |calls|
  {
    if calls == [] then [] else (if calls[0].1 == p then [calls[0].0] else []) + CallsOf(calls[1..], p)
  }

  lemma {:induction false} CallsOfAppend<T>(a: seq<(T, nat)>, b: seq<(T, nat)>, p: nat)
    ensures CallsOf(a + b, p) == CallsOf(a, p) + CallsOf(b, p)
  {
    if a == [] {
      assert a + b == b;
    } else {
      var head := if a[0].1 == p then [a[0].0] else [];
      var rest := CallsOf(a[1..], p);
      assert (a + b)[0] == a[0];
      assert (a + b)[1..] == a[1..] + b;
      assert CallsOf(a[1..] + b, p) == rest + CallsOf(b, p) by {
        CallsOfAppend(a[1..], b, p);
      }
      assert CallsOf(a + b, p) == head + (rest + CallsOf(b, p));
      assert CallsOf(a, p) == head + rest;
    }
  }

  lemma {:induction false} CallsOfPass<T>(s: seq<T>, pass: nat, p: nat)
    ensures CallsOf(Pass(s, pass), p) == if p == pass then s else []
  {
    if s != [] {
      CallsOfPass(s[1..], pass, p);
      assert Pass(s, pass)[1..] == Pass(s[1..], pass);
      assert s == [s[0]] + s[1..];
    }
  }

  /** The calls of sweep `n` come after those of the earlier sweeps. */
  lemma PassesStep<T>(lists: nat -> seq<T>, n: nat, p: nat)
    requires n >= 1
    ensures CallsOf(Passes(lists, n), p) == CallsOf(Passes(lists, n - 1), p) + CallsOf(Pass(lists(n - 1), n), p)
  {
    CallsOfAppend(Passes(lists, n - 1), Pass(lists(n - 1), n), p);
  }

  /** Sweeps later than the `n`-th have made no calls yet. */
  lemma {:induction false} PassesLater<T>(lists: nat -> seq<T>, n: nat, p: nat)
    requires p > n
    ensures CallsOf(Passes(lists, n), p) == []
  {
    if n > 0 {
      PassesStep(lists, n, p);
      PassesLater(lists, n - 1, p);
      CallsOfPass(lists(n - 1), n, p);
    }
  }

  /** Sweep `p` of the first `n` calls exactly the list it was given, in order. */
  lemma {:induction false} PassesAt<T>(lists: nat -> seq<T>, n: nat, p: nat)
    requires 1 <= p <= n
    ensures CallsOf(Passes(lists, n), p) == lists(p - 1)
  {
    PassesStep(lists, n, p);
    CallsOfPass(lists(n - 1), n, p);
    if p == n {
      PassesLater(lists, n - 1, p);
    } else {
      PassesAt(lists, n - 1, p);
    }
  }

  /** Every call of the first `n` sweeps is tagged with one of them. */
  lemma {:induction false} PassesRange<T>(lists: nat -> seq<T>, n: nat)
    ensures forall k :: 0 <= k < |Passes(lists, n)| ==> 1 <= Passes(lists, n)[k].1 <= n
  {
    if n > 0 {
      PassesRange(lists, n - 1);
      var a: seq<(T, nat)>, b: seq<(T, nat)> := Passes(lists, n - 1), Pass(lists(n - 1), n);
      assert Passes(lists, n) == a + b;
      forall k | 0 <= k < |a + b| ensures 1 <= (a + b)[k].1 <= n {
        if k < |a| {
          assert (a + b)[k] == a[k];
        } else {
          assert (a + b)[k] == b[k - |a|];
        }
      }
    }
  }

  /** The cleanup loop makes calls only for the sweeps it has run. */
  lemma TraceRange(s: seq<string>, n: nat, succeeds: (string, nat) -> bool)
    ensures forall k :: 0 <= k < |Trace(s, n, succeeds)| ==> 1 <= Trace(s, n, succeeds)[k].1 <= n
  {
    PassesRange(k => AfterSweeps(s, k, succeeds), n);
  }

  /** Sweeps later than the `n`-th have made no calls yet. */
  lemma TraceLater(s: seq<string>, n: nat, succeeds: (string, nat) -> bool, p: nat)
    requires p > n
    ensures CallsOf(Trace(s, n, succeeds), p) == []
  {
    PassesLater(k => AfterSweeps(s, k, succeeds), n, p);
  }

  /**
   * Sweep `p` attempts, in order, exactly the devices listed at its start:
   * each once, because the sweep runs over a copy of the list.
   */
  lemma TraceSweeps(s: seq<string>, n: nat, succeeds: (string, nat) -> bool, p: nat)
    requires 1 <= p <= n
    ensures CallsOf(Trace(s, n, succeeds), p) == AfterSweeps(s, p - 1, succeeds)
  {
    PassesAt(k => AfterSweeps(s, k, succeeds), n, p);
  }

  /** Once the list is empty, later sweeps leave it empty. */
  lemma {:induction false} EmptyStaysEmpty(s: seq<string>, j: nat, k: nat, succeeds: (string, nat) -> bool)
    requires j <= k && AfterSweeps(s, j, succeeds) == []
    ensures AfterSweeps(s, k, succeeds) == []
    decreases k
  {
    if j < k {
      EmptyStaysEmpty(s, j, k - 1, succeeds);
    }
  }
}
