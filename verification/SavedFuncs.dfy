/**
 Saved function states: several descriptions of one ELF function are merged, compared with
 each other, and give at most one BTF function.
 */
module SavedFuncs {
  import opened Strings
  import opened TypesMatch
  import opened Wrappers

  datatype ElfFunction = ElfFunction(name: string, symAddrs: seq<nat>, ambiguousAddr: bool)

  /** The bits the states of one function share. */
  datatype Flags = Flags(unexpected: bool, inconsistent: bool, uncertain: bool, reordered: bool)

  /** `elf` is the index of the function's entry in the ELF function table. */
  datatype State = State(
    elf: nat, sym: bool, addr: nat, ret: nat, params: seq<nat>,
    flags: Flags, optimizedParms: bool, signatureChanged: bool, optimizedSymbol: bool, ambiguousAddr: bool)

  /** What the merge needs to know: the BTF so far, the one ELF table, and the options. */
  datatype Env = Env(g: Graph, elves: seq<ElfFunction>, trueSignature: bool, skipInconsistent: bool) {
    ghost predicate Valid() {
      && g.Valid()
      && forall i, j :: 0 <= i < j < |elves| ==> elves[i].name != elves[j].name
    }

    ghost predicate Knows(s: State) {
      && s.elf < |elves| && s.ret <= |g.types| && |s.params| <= 255
      && forall k :: 0 <= k < |s.params| ==> s.params[k] <= |g.types|
    }

    ghost predicate KnowsAll(states: seq<State>) {
      forall k :: 0 <= k < |states| ==> Knows(states[k])
    }
  }

  /** Equal parameter counts, and return and parameter types that match. */
  ghost predicate Agree(env: Env, a: State, b: State)
    requires env.Valid() && env.Knows(a) && env.Knows(b)
  {
    && |a.params| == |b.params| && Matches(env.g, a.ret, b.ret)
    && forall k :: 0 <= k < |a.params| ==> Matches(env.g, a.params[k], b.params[k])
  }

  lemma AgreeIsEquivalence(env: Env, a: State, b: State, c: State)
    requires env.Valid() && env.Knows(a) && env.Knows(b) && env.Knows(c)
    ensures Agree(env, a, a)
    ensures Agree(env, a, b) ==> Agree(env, b, a)
    ensures Agree(env, a, b) && Agree(env, b, c) ==> Agree(env, a, c)
  {
    hide NF;
    if Agree(env, a, b) && Agree(env, b, c) {
      forall k | 0 <= k < |a.params| ensures Matches(env.g, a.params[k], c.params[k]) {
        assert Matches(env.g, a.params[k], b.params[k]) && Matches(env.g, b.params[k], c.params[k]);
      }
    }
  }

  /** funcs__match. */
  method FuncsMatch(env: Env, s1: State, s2: State) returns (matches: bool)
    requires env.Valid() && env.Knows(s1) && env.Knows(s2)
    ensures matches <==> Agree(env, s1, s2)
  {
    hide NF, Constant, FwdKind, Chain, Descends;
    if |s1.params| != |s2.params| {
      return false;
    }
    matches := Match(env.g, s1.ret, env.g, s2.ret);
    if !matches {
      return false;
    }
    for i := 0 to |s1.params|
      invariant forall k :: 0 <= k < i ==> Matches(env.g, s1.params[k], s2.params[k])
    {
      matches := Match(env.g, s1.params[i], env.g, s2.params[i]);
      if !matches {
        return false;
      }
    }
    return true;
  }

  /** saved_functions_cmp: by function name, states with an address first. */
  ghost predicate InOrder(env: Env, a: State, b: State)
    requires env.Knows(a) && env.Knows(b)
  {
    var r := Strcmp(env.elves[a.elf].name, env.elves[b.elf].name);
    if r != 0 then r < 0 else a.addr != 0 || b.addr == 0
  }

  ghost predicate Sorted(env: Env, states: seq<State>)
    requires env.KnowsAll(states)
  {
    forall i, j :: 0 <= i < j < |states| ==> InOrder(env, states[i], states[j])
  }

  /** After sorting, the states of one ELF function are one contiguous run. */
  lemma Contiguous(env: Env, states: seq<State>, i: nat, j: nat, k: nat)
    requires env.Valid() && env.KnowsAll(states) && Sorted(env, states)
    requires i <= j <= k < |states| && states[i].elf == states[k].elf
    ensures states[j].elf == states[i].elf
  {
    if i < j < k {
      var a, b := env.elves[states[i].elf].name, env.elves[states[j].elf].name;
      assert InOrder(env, states[i], states[j]) && InOrder(env, states[j], states[k]);
      Trichotomy(a, b);
      StrcmpZero(a, b);
      StrcmpZero(b, a);
      StrcmpFlip(a, b);
    }
  }

  /** States that saved_functions_combine compares with each other. */
  predicate Comparable(env: Env, a: State, b: State) {
    !env.trueSignature || (a.addr != 0 <==> b.addr != 0)
  }

  ghost predicate SameButFlags(a: State, b: State) {
    b == a.(flags := b.flags)
  }

  /** The shared flags after one merge; `checked` says whether the prototypes may be compared at all. */
  function MergeFlags(f: Flags, g: Flags, checked: bool, agree: bool): Flags {
    var unexpected, inconsistent := f.unexpected || g.unexpected, f.inconsistent || g.inconsistent;
    var reordered := f.reordered || g.reordered;
    Flags(unexpected,
          inconsistent || (checked && !unexpected && !reordered && !agree),
          f.uncertain || g.uncertain, reordered)
  }

  /** saved_functions_combine: states of the same ELF function come out with the same flags. */
  method Combine(env: Env, states: array<State>, i: nat, j: nat) returns (merged: bool)
    requires env.Valid() && i < j < states.Length && env.Knows(states[i]) && env.Knows(states[j])
    modifies states
    ensures merged <==> old(states[i].elf == states[j].elf)
    ensures forall k :: 0 <= k < states.Length && k != i && k != j ==> states[k] == old(states[k])
    ensures !merged ==> states[i] == old(states[i]) && states[j] == old(states[j])
    ensures merged ==>
              var a, b := old(states[i]), old(states[j]);
              var flags := MergeFlags(a.flags, b.flags, Comparable(env, a, b), Agree(env, a, b));
              states[i] == a.(flags := flags) && states[j] == b.(flags := flags)
  {
    hide NF, Agree, Matches, Descends, Chain, Sorted, Env.Valid, Env.Knows, MergeFlags, Comparable;
    var a, b := states[i], states[j];
    if a.elf != b.elf {
      return false;
    }
    var flags := SharedFlags(env, a, b);
    states[i] := a.(flags := flags);
    states[j] := b.(flags := flags);
    return true;
  }

  /** The flags both come out with; the prototypes are compared only where it can matter. */
  method SharedFlags(env: Env, a: State, b: State) returns (flags: Flags)
    requires env.Valid() && env.Knows(a) && env.Knows(b)
    ensures flags == MergeFlags(a.flags, b.flags, Comparable(env, a, b), Agree(env, a, b))
  {
    hide NF, Agree, Matches, Descends, Chain, Sorted, Env.Valid, Env.Knows;
    var unexpected := a.flags.unexpected || b.flags.unexpected;
    var inconsistent := a.flags.inconsistent || b.flags.inconsistent;
    var uncertain := a.flags.uncertain || b.flags.uncertain;
    var reordered := a.flags.reordered || b.flags.reordered;
    if (!env.trueSignature || (a.addr != 0 <==> b.addr != 0)) && !unexpected && !inconsistent && !reordered {
      var matches := FuncsMatch(env, a, b);
      if !matches {
        inconsistent := true;
      }
    }
    flags := Flags(unexpected, inconsistent, uncertain, reordered);
  }

  // ----- what the anchor of a group ends up knowing -----

  ghost predicate SomeUnexpected(states: seq<State>) { exists k :: 0 <= k < |states| && states[k].flags.unexpected }
  ghost predicate SomeUncertain(states: seq<State>) { exists k :: 0 <= k < |states| && states[k].flags.uncertain }
  ghost predicate SomeReordered(states: seq<State>) { exists k :: 0 <= k < |states| && states[k].flags.reordered }
  ghost predicate SomeInconsistent(states: seq<State>) { exists k :: 0 <= k < |states| && states[k].flags.inconsistent }

  /** Every comparable state of the group agrees with its first. */
  ghost predicate AnchorAgrees(env: Env, group: seq<State>)
    requires env.Valid() && env.KnowsAll(group)
  {
    forall k :: 0 <= k < |group| && Comparable(env, group[0], group[k]) ==> Agree(env, group[0], group[k])
  }

  /** All states that may be compared agree: all of them, or with true signatures all that have an address. */
  ghost predicate AllAgree(env: Env, group: seq<State>)
    requires env.Valid() && env.KnowsAll(group)
  {
    forall j, k :: 0 <= j < |group| && 0 <= k < |group| && MustAgree(env, group[j], group[k]) ==>
                     Agree(env, group[j], group[k])
  }

  predicate MustAgree(env: Env, a: State, b: State) {
    env.trueSignature ==> a.addr != 0 && b.addr != 0
  }

  /** Comparing with the anchor only is enough. */
  lemma AnchorIsEnough(env: Env, group: seq<State>)
    requires env.Valid() && env.KnowsAll(group) && Sorted(env, group)
    requires forall k :: 0 <= k < |group| ==> group[k].elf == group[0].elf
    requires AnchorAgrees(env, group)
    ensures AllAgree(env, group)
  {
    hide Agree;
    forall j, k | 0 <= j < |group| && 0 <= k < |group| && MustAgree(env, group[j], group[k])
      ensures Agree(env, group[j], group[k])
    {
      if env.trueSignature && j > 0 {
        assert InOrder(env, group[0], group[j]);
        StrcmpZero(env.elves[group[0].elf].name, env.elves[group[j].elf].name);
      }
      assert Agree(env, group[0], group[j]) && Agree(env, group[0], group[k]);
      AgreeIsEquivalence(env, group[0], group[j], group[k]);
      AgreeIsEquivalence(env, group[j], group[0], group[k]);
    }
  }

  /** The anchor after merging the whole group. */
  ghost predicate Merged(env: Env, group: seq<State>, anchor: State)
    requires env.Valid() && env.KnowsAll(group) && group != []
  {
    && SameButFlags(group[0], anchor)
    && anchor.flags.unexpected == SomeUnexpected(group)
    && anchor.flags.uncertain == SomeUncertain(group)
    && anchor.flags.reordered == SomeReordered(group)
    && (SomeInconsistent(group) ==> anchor.flags.inconsistent)
    && (!SomeUnexpected(group) && !SomeReordered(group) ==>
          anchor.flags.inconsistent == (SomeInconsistent(group) || !AnchorAgrees(env, group)))
  }

  lemma MergedOne(env: Env, s: State)
    requires env.Valid() && env.Knows(s)
    ensures env.KnowsAll([s]) && Merged(env, [s], s)
  {
    AgreeIsEquivalence(env, s, s, s);
    assert [s][0] == s;
  }

  lemma MergedMore(env: Env, group: seq<State>, anchor: State, next: State)
    requires env.Valid() && env.KnowsAll(group) && group != [] && env.Knows(next) && env.Knows(anchor)
    requires Merged(env, group, anchor)
    ensures env.KnowsAll(group + [next])
    ensures var flags := MergeFlags(anchor.flags, next.flags, Comparable(env, anchor, next), Agree(env, anchor, next));
            Merged(env, group + [next], anchor.(flags := flags))
  {
    var more := group + [next];
    assert more[|group|] == next;
    assert forall k :: 0 <= k < |group| ==> more[k] == group[k];
    assert Agree(env, anchor, next) <==> Agree(env, group[0], next);
    FlagsOfMore(group, next);
    AnchorOfMore(env, group, next);
  }

  lemma FlagsOfMore(group: seq<State>, next: State)
    ensures SomeUnexpected(group + [next]) <==> SomeUnexpected(group) || next.flags.unexpected
    ensures SomeUncertain(group + [next]) <==> SomeUncertain(group) || next.flags.uncertain
    ensures SomeReordered(group + [next]) <==> SomeReordered(group) || next.flags.reordered
    ensures SomeInconsistent(group + [next]) <==> SomeInconsistent(group) || next.flags.inconsistent
  {
    var more := group + [next];
    assert more[|group|] == next;
    assert forall k :: 0 <= k < |group| ==> more[k] == group[k];
  }

  lemma AnchorOfMore(env: Env, group: seq<State>, next: State)
    requires env.Valid() && env.KnowsAll(group) && group != [] && env.Knows(next)
    ensures env.KnowsAll(group + [next])
    ensures AnchorAgrees(env, group + [next]) <==>
              AnchorAgrees(env, group) && (Comparable(env, group[0], next) ==> Agree(env, group[0], next))
  {
    hide Agree;
    var more := group + [next];
    assert more[|group|] == next;
    assert forall k :: 0 <= k < |group| ==> more[k] == group[k];
  }

  /** The positions from `i` on and below `j` hold all states of one function. */
  ghost predicate IsGroup(states: seq<State>, i: int, j: int): (yes: bool)
    ensures yes ==> 0 <= i < j <= |states|
  {
    && 0 <= i < j <= |states|
    && forall k :: 0 <= k < |states| ==> (states[k].elf == states[i].elf <==> i <= k < j)
  }

  /** btf_encoder_func_state__skip_optimized_parms. */
  predicate SkipOptimized(env: Env, s: State) {
    !env.trueSignature && s.optimizedParms && (s.signatureChanged || s.optimizedSymbol)
  }

  /** Is the state at the address of one of its function's symbols? */
  predicate AtSymbol(env: Env, s: State)
    requires s.elf < |env.elves|
  {
    s.addr in env.elves[s.elf].symAddrs
  }

  /** The state a merged group is written from: the first at a symbol without ABI changes, else the first at a symbol, else the first. */
  ghost function Canonical(env: Env, group: seq<State>): (r: nat)
    requires env.Valid() && env.KnowsAll(group) && group != []
    ensures r < |group|
  {
    if exists k :: IsFirst(env, group, k, true) then var k :| IsFirst(env, group, k, true); k
    else if exists k :: IsFirst(env, group, k, false) then var k :| IsFirst(env, group, k, false); k
    else 0
  }

  ghost predicate IsFirst(env: Env, group: seq<State>, k: int, plain: bool)
    requires env.Valid() && env.KnowsAll(group)
  {
    && 0 <= k < |group| && AtSymbol(env, group[k]) && (plain ==> !SkipOptimized(env, group[k]))
    && forall m :: 0 <= m < k ==> !(AtSymbol(env, group[m]) && (plain ==> !SkipOptimized(env, group[m])))
  }

  /** Is the state at a symbol of its function, and its ABI as declared or to be rewritten? */
  predicate AsDeclared(env: Env, s: State)
    requires s.elf < |env.elves|
  {
    && s.addr in env.elves[s.elf].symAddrs
    && (s.optimizedParms ==> env.trueSignature || (!s.signatureChanged && !s.optimizedSymbol))
  }

  /** Which state that is: the first of the best there are. */
  lemma CanonicalIsBest(env: Env, group: seq<State>)
    requires env.Valid() && env.KnowsAll(group) && group != []
    ensures var c := Canonical(env, group);
            && (forall k :: 0 <= k < |group| ==> env.Knows(group[k]))
            && (forall k :: 0 <= k < |group| && AsDeclared(env, group[k]) ==> c <= k && AsDeclared(env, group[c]))
            && ((forall k :: 0 <= k < |group| ==> !AsDeclared(env, group[k])) ==>
                  forall k :: 0 <= k < |group| && group[k].addr in env.elves[group[k].elf].symAddrs ==>
                    c <= k && group[c].addr in env.elves[group[c].elf].symAddrs)
            && ((forall k :: 0 <= k < |group| ==> group[k].addr !in env.elves[group[k].elf].symAddrs) ==> c == 0)
  {
    hide NF, Agree, Descends;
    FirstAt(env, group, true);
    FirstAt(env, group, false);
  }

  /** If there is one there is a first. */
  lemma FirstAt(env: Env, group: seq<State>, plain: bool)
    requires env.Valid() && env.KnowsAll(group)
    ensures (exists k :: IsFirst(env, group, k, plain)) <==>
            exists k :: 0 <= k < |group| && AtSymbol(env, group[k]) && (plain ==> !SkipOptimized(env, group[k]))
  {
    if k :| 0 <= k < |group| && AtSymbol(env, group[k]) && (plain ==> !SkipOptimized(env, group[k])) {
      FirstUpTo(env, group, plain, k);
    }
  }

  lemma {:induction false} FirstUpTo(env: Env, group: seq<State>, plain: bool, n: nat)
    requires env.Valid() && env.KnowsAll(group) && n < |group|
    requires AtSymbol(env, group[n]) && (plain ==> !SkipOptimized(env, group[n]))
    ensures exists k :: IsFirst(env, group, k, plain)
  {
    if !IsFirst(env, group, n, plain) {
      var m :| 0 <= m < n && AtSymbol(env, group[m]) && (plain ==> !SkipOptimized(env, group[m]));
      FirstUpTo(env, group, plain, m);
    }
  }

  /** btf_encoder__select_canonical_state. */
  method SelectCanonical(env: Env, states: array<State>, i: nat, j: nat) returns (c: nat)
    requires env.Valid() && i < j <= states.Length && env.KnowsAll(states[i..j])
    requires forall k :: i <= k < j ==> states[k].elf == states[i].elf
    ensures i <= c < j && c == i + Canonical(env, states[i..j])
  {
    hide NF, Agree, Descends;
    ghost var group := states[i..j];
    assert forall k :: 0 <= k < |group| ==> group[k] == states[i + k];
    assert env.Knows(group[0]);
    var elf := states[i].elf;
    var first := j;
    for k := i to j
      invariant i <= first <= j
      invariant first < j ==> first < k && IsFirst(env, group, first - i, false)
      invariant first == j ==> forall m :: 0 <= m < k - i ==> !AtSymbol(env, group[m])
      invariant forall m :: 0 <= m < k - i ==> !(AtSymbol(env, group[m]) && !SkipOptimized(env, group[m]))
    {
      assert states[k] == group[k - i];
      if states[k].addr in env.elves[elf].symAddrs {
        if first == j {
          first := k;
        }
        if !SkipOptimized(env, states[k]) {
          assert IsFirst(env, group, k - i, true);
          return k;
        }
      }
    }
    return if first < j then first else i;
  }

  /**
   Is there a register or location problem in a state that state `k` of the group has been merged with?
   The first one is merged with all of them, any other one with those before it.
   */
  ghost predicate Blamed(states: seq<State>, i: int, j: int, k: int)
    requires 0 <= i <= k < j <= |states|
  {
    exists m :: i <= m < j && (m <= k || k == i) && (states[m].flags.unexpected || states[m].flags.uncertain)
  }

  lemma BlamedMore(states: seq<State>, i: int, j: int)
    requires 0 <= i < j < |states|
    ensures forall k :: i < k < j ==> (Blamed(states, i, j + 1, k) <==> Blamed(states, i, j, k))
    ensures var last := states[j].flags.unexpected || states[j].flags.uncertain;
            && (Blamed(states, i, j + 1, i) <==> Blamed(states, i, j, i) || last)
            && (Blamed(states, i, j + 1, j) <==> Blamed(states, i, j, i) || last)
  {
  }

  /** The states from `i` on and below `j` are merged, the rest as they were. */
  ghost predicate Halfway(env: Env, orig: seq<State>, now: seq<State>, i: int, j: int)
    requires env.Valid() && env.KnowsAll(orig)
  {
    && 0 <= i < j <= |orig| == |now|
    && (forall k :: 0 <= k < |orig| && !(i <= k < j) ==> now[k] == orig[k])
    && (forall k :: i <= k < j ==> SameButFlags(orig[k], now[k]) && orig[k].elf == orig[i].elf)
    && (forall k :: i <= k < j ==> ((now[k].flags.unexpected || now[k].flags.uncertain) <==> Blamed(orig, i, j, k)))
    && env.KnowsAll(orig[i..j]) && Merged(env, orig[i..j], now[i])
  }

  lemma HalfwayStart(env: Env, orig: seq<State>, i: int)
    requires env.Valid() && env.KnowsAll(orig) && 0 <= i < |orig|
    ensures Halfway(env, orig, orig, i, i + 1)
  {
    hide Merged, Env.Valid;
    assert orig[i..i + 1] == [orig[i]] && env.Knows(orig[i]);
    MergedOne(env, orig[i]);
  }

  lemma HalfwayStep(env: Env, orig: seq<State>, was: seq<State>, now: seq<State>, i: int, j: int)
    requires env.Valid() && env.KnowsAll(orig) && Halfway(env, orig, was, i, j) && j < |orig| == |now|
    requires orig[i].elf == orig[j].elf && env.Knows(was[i]) && env.Knows(was[j])
    requires var flags := MergeFlags(was[i].flags, was[j].flags, Comparable(env, was[i], was[j]), Agree(env, was[i], was[j]));
             now == was[i := was[i].(flags := flags)][j := was[j].(flags := flags)]
    ensures Halfway(env, orig, now, i, j + 1)
  {
    hide Merged, Comparable, Agree, Env.Valid, Env.Knows, Blamed, MergeFlags;
    assert orig[i..j + 1] == orig[i..j] + [orig[j]];
    MergedMore(env, orig[i..j], was[i], orig[j]);
    BlamedMore(orig, i, j);
    BlameShared(was[i].flags, was[j].flags, Comparable(env, was[i], was[j]), Agree(env, was[i], was[j]));
    hide Env.KnowsAll;
    forall k | i <= k < j + 1
      ensures (now[k].flags.unexpected || now[k].flags.uncertain) <==> Blamed(orig, i, j + 1, k)
    {
      if i < k < j {
        assert now[k] == was[k];
      }
    }
  }

  lemma BlameShared(f: Flags, g: Flags, checked: bool, agree: bool)
    ensures var m := MergeFlags(f, g, checked, agree);
            m.unexpected || m.uncertain <==> f.unexpected || f.uncertain || g.unexpected || g.uncertain
  {
  }

  /** Merge the states that follow `i` for the same function. */
  method MergeGroup(env: Env, states: array<State>, i: nat) returns (j: nat)
    requires env.Valid() && i < states.Length && env.KnowsAll(states[..])
    modifies states
    ensures i < j <= states.Length
    ensures forall k :: 0 <= k < states.Length && !(i <= k < j) ==> states[k] == old(states[k])
    ensures forall k :: i <= k < j ==> SameButFlags(old(states[k]), states[k]) && old(states[k]).elf == old(states[i]).elf
    ensures j < states.Length ==> old(states[j]).elf != old(states[i]).elf
    ensures env.KnowsAll(old(states[i..j])) && Merged(env, old(states[i..j]), states[i])
    ensures forall k :: i <= k < j ==> ((states[k].flags.unexpected || states[k].flags.uncertain) <==> Blamed(old(states[..]), i, j, k))
  {
    hide NF, Agree, Matches, Descends, Chain, Merged, Comparable, Sorted, Env.Valid, MergeFlags, Blamed;
    ghost var orig := states[..];
    j := i + 1;
    HalfwayStart(env, orig, i);
    while j < states.Length
      invariant i < j <= states.Length && Halfway(env, orig, states[..], i, j)
    {
      ghost var was := states[..];
      assert env.Knows(orig[j]) && env.Knows(orig[i]) && SameButFlags(orig[i], was[i]);
      var merged := Combine(env, states, i, j);
      if !merged {
        assert states[..] == was;
        break;
      }
      HalfwayStep(env, orig, was, states[..], i, j);
      j := j + 1;
    }
  }

  /** The shared flags do not influence which state is canonical. */
  lemma CanonicalSame(env: Env, g: seq<State>, h: seq<State>)
    requires env.Valid() && env.KnowsAll(g) && env.KnowsAll(h) && |g| == |h| > 0
    requires forall k :: 0 <= k < |g| ==> SameButFlags(g[k], h[k])
    ensures Canonical(env, g) == Canonical(env, h)
    ensures SkipOptimized(env, g[Canonical(env, g)]) <==> SkipOptimized(env, h[Canonical(env, h)])
  {
    hide NF, Agree, Descends;
    assert forall k: int, plain: bool :: IsFirst(env, g, k, plain) <==> IsFirst(env, h, k, plain);
  }

  // ----- btf_encoder__add_saved_funcs -----

  /** A function written to BTF: which one, from which state, and whether as a true signature. */
  datatype Func = Func(elf: nat, index: nat, trueSignature: bool)

  /** May the merged group be written, and its prototype be trusted? */
  ghost predicate Trusted(env: Env, group: seq<State>)
    requires env.Valid() && env.KnowsAll(group)
  {
    && !SomeUnexpected(group) && !SomeUncertain(group) && !SomeReordered(group)
    && (env.skipInconsistent ==> !SomeInconsistent(group) && (group != [] ==> AnchorAgrees(env, group)))
  }

  /** When a group is written, outside the true-signature path. */
  ghost predicate Written(env: Env, group: seq<State>)
    requires env.Valid() && env.KnowsAll(group) && group != []
  {
    && Trusted(env, group) && !SkipOptimized(env, group[Canonical(env, group)])
    && !env.elves[group[0].elf].ambiguousAddr
  }

  /** A state whose own symbol may be written as a true signature. */
  predicate Eligible(s: State) {
    s.sym && !s.flags.unexpected && !s.flags.uncertain && !s.ambiguousAddr
  }

  /** btf_encoder__add_true_signature: the first eligible state of the function, if it has one. */
  method AddTrueSignature(env: Env, states: array<State>, idx: nat) returns (found: bool, i: nat)
    requires idx < states.Length
    ensures idx <= i <= states.Length
    ensures forall k :: idx <= k < i ==> states[k].elf == states[idx].elf && !Eligible(states[k])
    ensures if found then i < states.Length && states[i].elf == states[idx].elf && Eligible(states[i])
            else i == states.Length || states[i].elf != states[idx].elf
  {
    i := idx;
    while i < states.Length
      invariant idx <= i <= states.Length
      invariant forall k :: idx <= k < i ==> states[k].elf == states[idx].elf && !Eligible(states[k])
    {
      var s := states[i];
      if states[idx].elf != s.elf {
        return false, i;
      }
      if s.sym && !(s.flags.unexpected || s.flags.uncertain || s.ambiguousAddr) {
        return true, i;
      }
      i := i + 1;
    }
    return false, i;
  }

  /** The decision on one merged group. */
  method Decide(env: Env, states: array<State>, i: nat, j: nat, ghost orig: seq<State>) returns (write: bool, c: nat)
    requires env.Valid() && i < j <= states.Length && |orig| == states.Length && env.KnowsAll(orig)
    requires forall k :: i <= k < j ==> SameButFlags(orig[k], states[k]) && orig[k].elf == orig[i].elf
    requires env.KnowsAll(orig[i..j]) && Merged(env, orig[i..j], states[i])
    ensures c == i + Canonical(env, orig[i..j])
    ensures write <==> Written(env, orig[i..j])
  {
    hide NF, Agree, Matches, Descends, Chain, IsFirst, AtSymbol;
    ghost var group, now := orig[i..j], states[i..j];
    assert forall k :: 0 <= k < |group| ==> group[k] == orig[i + k] && now[k] == states[i + k];
    assert env.Knows(group[0]);
    c := i;
    if j - i > 1 {
      c := SelectCanonical(env, states, i, j);
    } else {
      assert Canonical(env, now) == 0;
    }
    CanonicalSame(env, group, now);
    var state := states[i];
    write := true;
    if state.flags.unexpected {
      write := false;
    }
    if env.skipInconsistent && state.flags.inconsistent {
      write := false;
    }
    if state.flags.uncertain {
      write := false;
    }
    if state.flags.reordered {
      write := false;
    }
    if SkipOptimized(env, states[c]) {
      write := false;
    }
    if env.elves[state.elf].ambiguousAddr {
      write := false;
    }
  }

  /** When that is: nothing in the group distrusted, one prototype if asked for, the chosen state's ABI kept, no ambiguous address. */
  lemma WrittenExactly(env: Env, orig: seq<State>, i: nat, j: nat)
    requires env.Valid() && env.KnowsAll(orig) && i < j <= |orig| && env.KnowsAll(orig[i..j])
    ensures var c := i + Canonical(env, orig[i..j]);
            && env.Knows(orig[i]) && env.Knows(orig[c])
            && (Written(env, orig[i..j]) <==>
                  && (forall k :: i <= k < j ==>
                        && !orig[k].flags.unexpected && !orig[k].flags.uncertain && !orig[k].flags.reordered
                        && (env.skipInconsistent ==>
                              && !orig[k].flags.inconsistent && env.Knows(orig[k])
                              && (!env.trueSignature || (orig[i].addr == 0 <==> orig[k].addr == 0) ==> Agree(env, orig[i], orig[k]))))
                  && (env.trueSignature || !orig[c].optimizedParms || !(orig[c].signatureChanged || orig[c].optimizedSymbol))
                  && !env.elves[orig[i].elf].ambiguousAddr)
  {
    hide NF, Agree, Matches, Env.Valid, Canonical, IsFirst;
    var group := orig[i..j];
    assert forall k :: 0 <= k < |group| ==> group[k] == orig[i + k];
    assert forall k :: i <= k < j ==> orig[k] == group[k - i];
  }

  ghost predicate Emits(funcs: seq<Func>, elf: nat) {
    exists q :: 0 <= q < |funcs| && funcs[q].elf == elf
  }

  /** State `k` of the group may be written as a true signature. */
  ghost predicate Ready(states: seq<State>, i: int, j: int, k: int)
    requires 0 <= i < j <= |states|
  {
    i <= k < j && states[k].sym && !states[k].ambiguousAddr && !Blamed(states, i, j, k)
  }

  /** What is written from a group, if anything is. */
  ghost predicate FromGroup(env: Env, orig: seq<State>, i: int, j: int, f: Func)
    requires env.Valid() && env.KnowsAll(orig) && 0 <= i < j <= |orig|
  {
    && f.elf == orig[i].elf && i <= f.index < j
    && if f.trueSignature
       then env.trueSignature && Ready(orig, i, j, f.index) && forall k :: i <= k < f.index ==> !Ready(orig, i, j, k)
       else && (env.trueSignature ==> forall k :: i <= k < j ==> !Ready(orig, i, j, k))
            && WrittenAs(env, orig, i, j, f.index)
  }

  /** The group may be written, and this is the state to write it from. */
  ghost predicate WrittenAs(env: Env, orig: seq<State>, i: int, j: int, index: int)
    requires env.Valid() && env.KnowsAll(orig) && 0 <= i < j <= |orig|
  {
    KnowsPart(env, orig, i, j);
    Written(env, orig[i..j]) && index == i + Canonical(env, orig[i..j])
  }

  lemma KnowsPart(env: Env, orig: seq<State>, i: int, j: int)
    requires env.Valid() && env.KnowsAll(orig) && 0 <= i <= j <= |orig|
    ensures env.KnowsAll(orig[i..j])
  {
    assert forall k :: 0 <= k < j - i ==> orig[i..j][k] == orig[i + k];
  }

  /** Something is written from the group. */
  ghost predicate Comes(env: Env, orig: seq<State>, i: int, j: int)
    requires env.Valid() && env.KnowsAll(orig) && 0 <= i < j <= |orig|
  {
    KnowsPart(env, orig, i, j);
    (env.trueSignature && exists k :: Ready(orig, i, j, k)) || Written(env, orig[i..j])
  }

  /** What is known once the groups below position `n` are done. */
  ghost predicate Progress(env: Env, orig: seq<State>, n: nat, funcs: seq<Func>)
    requires env.Valid() && env.KnowsAll(orig) && n <= |orig|
  {
    && (forall q :: 0 <= q < |funcs| ==> exists i, j :: IsGroup(orig, i, j) && j <= n && FromGroup(env, orig, i, j, funcs[q]))
    && (forall p, q :: 0 <= p < q < |funcs| ==> funcs[p].elf != funcs[q].elf)
    && (forall k, m :: 0 <= k < n <= m < |orig| ==> orig[k].elf != orig[m].elf)
    && (forall i, j :: IsGroup(orig, i, j) && j <= n && Comes(env, orig, i, j) ==> Emits(funcs, orig[i].elf))
  }

  /** The group found by the merge loop is all there is of its function. */
  lemma GroupIsAll(env: Env, orig: seq<State>, i: nat, j: nat)
    requires env.Valid() && env.KnowsAll(orig) && Sorted(env, orig) && i < j <= |orig|
    requires forall k, m :: 0 <= k < i <= m < |orig| ==> orig[k].elf != orig[m].elf
    requires forall k :: i <= k < j ==> orig[k].elf == orig[i].elf
    requires j < |orig| ==> orig[j].elf != orig[i].elf
    ensures IsGroup(orig, i, j)
    ensures forall k, m :: 0 <= k < j <= m < |orig| ==> orig[k].elf != orig[m].elf
  {
    hide InOrder;
    forall m | j <= m < |orig| ensures orig[m].elf != orig[i].elf {
      if orig[m].elf == orig[i].elf {
        Contiguous(env, orig, i, j, m);
      }
    }
  }

  /** A function has one group. */
  lemma OneGroup(orig: seq<State>, i: int, j: int, k: int, m: int)
    requires IsGroup(orig, i, j) && IsGroup(orig, k, m) && orig[i].elf == orig[k].elf
    ensures i == k && j == m
  {
    assert orig[j - 1].elf == orig[i].elf && orig[m - 1].elf == orig[k].elf;
  }

  /** Every state is in one, when they are sorted. */
  lemma GroupOf(env: Env, orig: seq<State>, k: nat) returns (i: nat, j: nat)
    requires env.Valid() && env.KnowsAll(orig) && Sorted(env, orig) && k < |orig|
    ensures IsGroup(orig, i, j) && i <= k < j
  {
    hide InOrder, Sorted;
    i, j := k, k + 1;
    while i > 0 && orig[i - 1].elf == orig[k].elf
      invariant i <= k && forall m :: i <= m <= k ==> orig[m].elf == orig[k].elf
    {
      i := i - 1;
    }
    while j < |orig| && orig[j].elf == orig[k].elf
      invariant k < j <= |orig| && forall m :: k <= m < j ==> orig[m].elf == orig[k].elf
    {
      j := j + 1;
    }
    forall m | 0 <= m < |orig| && orig[m].elf == orig[i].elf ensures i <= m < j {
      if m < i {
        Contiguous(env, orig, m, i - 1, k);
      } else if m >= j {
        Contiguous(env, orig, k, j, m);
      }
    }
  }

  /**
   An anchor that ends with nothing unexpected, inconsistent or reordered vouches for the whole
   group: all its states (with true signatures, all that have an address) agree pairwise.
   */
  lemma ClearAnchorVouches(env: Env, group: seq<State>, anchor: State)
    requires env.Valid() && env.KnowsAll(group) && group != [] && Sorted(env, group)
    requires forall k :: 0 <= k < |group| ==> group[k].elf == group[0].elf
    requires Merged(env, group, anchor)
    requires !anchor.flags.unexpected && !anchor.flags.inconsistent && !anchor.flags.reordered
    ensures AllAgree(env, group)
  {
    AnchorIsEnough(env, group);
  }

  /** A written function has one prototype: everything that may be compared agrees. */
  lemma WrittenMeansOnePrototype(env: Env, orig: seq<State>, i: nat, j: nat)
    requires env.Valid() && env.KnowsAll(orig) && Sorted(env, orig) && env.skipInconsistent
    requires IsGroup(orig, i, j) && WrittenAs(env, orig, i, j, i + Canonical(env, orig[i..j]))
    ensures env.KnowsAll(orig[i..j]) && AllAgree(env, orig[i..j])
  {
    hide InOrder, Agree;
    KnowsPart(env, orig, i, j);
    var group := orig[i..j];
    assert forall k :: 0 <= k < |group| ==> group[k] == orig[i + k];
    AnchorIsEnough(env, group);
  }

  lemma NotYetEmitted(env: Env, orig: seq<State>, n: nat, funcs: seq<Func>, i: nat)
    requires env.Valid() && env.KnowsAll(orig) && n <= i < |orig| && Progress(env, orig, n, funcs)
    ensures !Emits(funcs, orig[i].elf)
  {
    hide Written, WrittenAs, Ready, Comes;
    forall q | 0 <= q < |funcs| ensures funcs[q].elf != orig[i].elf {
      var f := funcs[q];
      var k, m :| IsGroup(orig, k, m) && m <= n && FromGroup(env, orig, k, m, f);
      assert orig[k].elf != orig[i].elf;
    }
  }

  /** The groups that end at or before `j` are those that did before, and the one that ends there. */
  lemma LastGroup(orig: seq<State>, i: int, j: int, k: int, m: int)
    requires IsGroup(orig, i, j) && IsGroup(orig, k, m) && m <= j
    ensures m <= i || (k == i && m == j)
  {
    if m > i {
      assert orig[m - 1].elf == orig[i].elf;
      OneGroup(orig, i, j, k, m);
    }
  }

  /** One more group, from which nothing was written. */
  lemma ProgressWithout(env: Env, orig: seq<State>, i: nat, j: nat, funcs: seq<Func>)
    requires env.Valid() && env.KnowsAll(orig) && Sorted(env, orig) && i < j <= |orig|
    requires Progress(env, orig, i, funcs)
    requires forall k :: i <= k < j ==> orig[k].elf == orig[i].elf
    requires j < |orig| ==> orig[j].elf != orig[i].elf
    requires !Comes(env, orig, i, j)
    ensures Progress(env, orig, j, funcs)
  {
    hide Comes, FromGroup, InOrder, Sorted, IsGroup, Emits, Env.KnowsAll, Env.Valid;
    GroupIsAll(env, orig, i, j);
    forall k, m | IsGroup(orig, k, m) && m <= j && Comes(env, orig, k, m) ensures Emits(funcs, orig[k].elf) {
      LastGroup(orig, i, j, k, m);
    }
  }

  lemma FromBefore(env: Env, orig: seq<State>, i: nat, j: nat, funcs: seq<Func>, q: nat)
    requires env.Valid() && env.KnowsAll(orig) && i <= j <= |orig| && Progress(env, orig, i, funcs) && q < |funcs|
    ensures exists k, m :: IsGroup(orig, k, m) && m <= j && FromGroup(env, orig, k, m, funcs[q])
  {
    hide Comes, FromGroup, IsGroup, Emits, Env.KnowsAll, Env.Valid;
    var f := funcs[q];
    var k, m :| IsGroup(orig, k, m) && m <= i && FromGroup(env, orig, k, m, f);
    assert m <= j;
  }

  /** One more group, and one function of it. */
  lemma ProgressWith(env: Env, orig: seq<State>, i: nat, j: nat, funcs: seq<Func>, f: Func)
    requires env.Valid() && env.KnowsAll(orig) && Sorted(env, orig) && i < j <= |orig|
    requires Progress(env, orig, i, funcs)
    requires forall k :: i <= k < j ==> orig[k].elf == orig[i].elf
    requires j < |orig| ==> orig[j].elf != orig[i].elf
    requires FromGroup(env, orig, i, j, f)
    ensures Progress(env, orig, j, funcs + [f])
  {
    hide Comes, InOrder, Sorted, IsGroup, WrittenAs, Ready, Env.KnowsAll, Env.Valid;
    GroupIsAll(env, orig, i, j);
    NotYetEmitted(env, orig, i, funcs, i);
    var funcs' := funcs + [f];
    assert f.elf == orig[i].elf && funcs'[|funcs|] == f;
    hide FromGroup;
    assert forall q :: 0 <= q < |funcs| ==> funcs'[q] == funcs[q];
    forall q | 0 <= q < |funcs'| ensures exists k, m :: IsGroup(orig, k, m) && m <= j && FromGroup(env, orig, k, m, funcs'[q]) {
      if q < |funcs| {
        FromBefore(env, orig, i, j, funcs, q);
      }
    }
    forall k, m | IsGroup(orig, k, m) && m <= j && Comes(env, orig, k, m) ensures Emits(funcs', orig[k].elf) {
      LastGroup(orig, i, j, k, m);
      if m <= i {
        var q :| 0 <= q < |funcs| && funcs[q].elf == orig[k].elf;
        assert funcs'[q].elf == orig[k].elf;
      }
    }
  }

  /** What the finished list holds, told from the states alone. */
  lemma Settled(env: Env, orig: seq<State>, funcs: seq<Func>)
    requires env.Valid() && env.KnowsAll(orig) && Progress(env, orig, |orig|, funcs)
    ensures forall q :: 0 <= q < |funcs| && !funcs[q].trueSignature ==>
              exists i, j :: IsGroup(orig, i, j) && funcs[q].elf == orig[i].elf && WrittenAs(env, orig, i, j, funcs[q].index)
    ensures forall q :: 0 <= q < |funcs| && funcs[q].trueSignature ==>
              exists i, j ::
                && IsGroup(orig, i, j) && funcs[q].elf == orig[i].elf && i <= funcs[q].index < j && env.trueSignature
                && orig[funcs[q].index].sym && !orig[funcs[q].index].ambiguousAddr
                && forall m :: i <= m < j && (m <= funcs[q].index || funcs[q].index == i) ==>
                     !orig[m].flags.unexpected && !orig[m].flags.uncertain
  {
    hide Written, WrittenAs, Comes, IsGroup, Env.KnowsAll, Env.Valid;
    forall q | 0 <= q < |funcs| ensures exists i, j :: IsGroup(orig, i, j) && FromGroup(env, orig, i, j, funcs[q]) {
      var f := funcs[q];
      var i, j :| IsGroup(orig, i, j) && j <= |orig| && FromGroup(env, orig, i, j, f);
    }
  }

  /** A group with a state that may be written as a true signature comes from the first such state. */
  lemma SettledTrue(env: Env, orig: seq<State>, funcs: seq<Func>, i: int, j: int, k: int)
    requires env.Valid() && env.KnowsAll(orig) && Progress(env, orig, |orig|, funcs)
    requires env.trueSignature && IsGroup(orig, i, j) && Ready(orig, i, j, k)
    ensures exists q :: 0 <= q < |funcs| && funcs[q].elf == orig[i].elf && funcs[q].trueSignature && funcs[q].index <= k
  {
    hide Written, WrittenAs, Blamed, IsGroup, Env.KnowsAll, Env.Valid, Ready, FromGroup, Comes;
    ReadyComes(env, orig, i, j, k);
    assert Emits(funcs, orig[i].elf);
    var q :| 0 <= q < |funcs| && funcs[q].elf == orig[i].elf;
    var f := funcs[q];
    var a, b :| IsGroup(orig, a, b) && b <= |orig| && FromGroup(env, orig, a, b, f);
    GroupElf(env, orig, a, b, funcs[q]);
    OneGroup(orig, i, j, a, b);
    TrueIfReady(env, orig, i, j, k, funcs[q]);
  }

  lemma GroupElf(env: Env, orig: seq<State>, i: int, j: int, f: Func)
    requires env.Valid() && env.KnowsAll(orig) && 0 <= i < j <= |orig| && FromGroup(env, orig, i, j, f)
    ensures f.elf == orig[i].elf
  {
  }

  lemma TrueIfReady(env: Env, orig: seq<State>, i: int, j: int, k: int, f: Func)
    requires env.Valid() && env.KnowsAll(orig) && 0 <= i < j <= |orig| && FromGroup(env, orig, i, j, f)
    requires env.trueSignature && Ready(orig, i, j, k)
    ensures f.trueSignature && f.index <= k
  {
    hide Written, WrittenAs, Blamed, Env.KnowsAll, Env.Valid;
  }

  /**
   Group by group over the sorted states. Each ELF function yields at most one BTF function. With true
   signatures it comes from the first of its states at a symbol of its own with an unambiguous address that
   has been merged with nothing distrusted. Otherwise it comes, from the state chosen for the group, exactly
   when the group may be written.
   */
  method AddSavedFuncs(env: Env, states: array<State>) returns (funcs: seq<Func>)
    requires env.Valid() && env.KnowsAll(states[..]) && Sorted(env, states[..])
    modifies states
    ensures Progress(env, old(states[..]), states.Length, funcs)
    ensures forall p, q :: 0 <= p < q < |funcs| ==> funcs[p].elf != funcs[q].elf
    ensures forall q :: 0 <= q < |funcs| && !funcs[q].trueSignature ==>
              exists i, j ::
                && IsGroup(old(states[..]), i, j) && funcs[q].elf == old(states[..])[i].elf
                && WrittenAs(env, old(states[..]), i, j, funcs[q].index)
    ensures forall i, j, k :: IsGroup(old(states[..]), i, j) && WrittenAs(env, old(states[..]), i, j, k) ==>
              Emits(funcs, old(states[..])[i].elf)
    ensures forall q :: 0 <= q < |funcs| && funcs[q].trueSignature ==>
              var orig, k := old(states[..]), funcs[q].index;
              exists i, j ::
                && IsGroup(orig, i, j) && funcs[q].elf == orig[i].elf && i <= k < j && env.trueSignature
                && orig[k].sym && !orig[k].ambiguousAddr
                && forall m :: i <= m < j && (m <= k || k == i) ==> !orig[m].flags.unexpected && !orig[m].flags.uncertain
    ensures var orig := old(states[..]);
            env.trueSignature ==>
              forall i, j, k ::
                && IsGroup(orig, i, j) && i <= k < j && orig[k].sym && !orig[k].ambiguousAddr
                && (forall m :: i <= m < j && (m <= k || k == i) ==> !orig[m].flags.unexpected && !orig[m].flags.uncertain)
                ==> exists q :: 0 <= q < |funcs| && funcs[q].elf == orig[i].elf && funcs[q].trueSignature && funcs[q].index <= k
  {
    hide NF, Agree, Matches, Descends, Chain, Merged, Written, InOrder, FromGroup, Comes, Blamed, IsGroup, WrittenAs;
    ghost var orig := states[..];
    funcs := [];
    var i := 0;
    while i < states.Length
      invariant 0 <= i <= states.Length
      invariant forall k :: i <= k < states.Length ==> states[k] == orig[k]
      invariant forall k :: 0 <= k < i ==> SameButFlags(orig[k], states[k])
      invariant Progress(env, orig, i, funcs)
    {
      hide Progress, Sorted;
      var j, f := AddGroup(env, states, i, orig);
      if f.Some? {
        ProgressWith(env, orig, i, j, funcs, f.value);
        funcs := funcs + [f.value];
      } else {
        ProgressWithout(env, orig, i, j, funcs);
      }
      i := j;
    }
    AllSettled(env, orig, funcs);
  }

  /** One turn of that loop: merge the group that starts at `i`, and see what comes of it. */
  method AddGroup(env: Env, states: array<State>, i: nat, ghost orig: seq<State>) returns (j: nat, f: Option<Func>)
    requires env.Valid() && |orig| == states.Length && env.KnowsAll(orig) && Sorted(env, orig) && i < states.Length
    requires forall k :: i <= k < states.Length ==> states[k] == orig[k]
    requires forall k :: 0 <= k < i ==> SameButFlags(orig[k], states[k])
    modifies states
    ensures i < j <= states.Length
    ensures forall k :: j <= k < states.Length ==> states[k] == orig[k]
    ensures forall k :: 0 <= k < j ==> SameButFlags(orig[k], states[k])
    ensures forall k :: i <= k < j ==> orig[k].elf == orig[i].elf
    ensures j < |orig| ==> orig[j].elf != orig[i].elf
    ensures if f.Some? then FromGroup(env, orig, i, j, f.value) else !Comes(env, orig, i, j)
  {
    hide NF, Agree, Matches, Descends, Chain, Merged, Written, Sorted, InOrder, FromGroup, Comes, Blamed, Eligible;
    forall k | 0 <= k < states.Length ensures env.Knows(states[..][k]) {
      assert env.Knows(orig[k]);
    }
    ghost var before := states[..];
    j := MergeGroup(env, states, i);
    assert before[i..j] == orig[i..j];
    SameBlame(before, orig, i, j);
    if env.trueSignature {
      var found, at := AddTrueSignature(env, states, i);
      if found {
        WithinGroup(env, orig, states[..], i, j, at);
        TrueFromGroup(env, orig, states[..], i, j, at);
        return j, Some(Func(states[i].elf, at, true));
      }
      NoneReady(env, orig, states[..], i, j, at);
    }
    var write, c := Decide(env, states, i, j, orig);
    if write {
      PlainFromGroup(env, orig, i, j, Func(states[i].elf, c, false));
      return j, Some(Func(states[i].elf, c, false));
    }
    NothingComes(env, orig, i, j);
    f := None;
  }

  /** A state of the same function found at or after `i` is in its group. */
  lemma WithinGroup(env: Env, orig: seq<State>, now: seq<State>, i: nat, j: nat, at: nat)
    requires env.Valid() && env.KnowsAll(orig) && Sorted(env, orig) && i < j <= |orig| == |now| && i <= at < |orig|
    requires forall k :: 0 <= k < |orig| ==> SameButFlags(orig[k], now[k])
    requires now[at].elf == now[i].elf
    requires j < |orig| ==> orig[j].elf != orig[i].elf
    ensures at < j
  {
    if at >= j {
      Contiguous(env, orig, i, j, at);
    }
  }

  lemma SameBlame(a: seq<State>, b: seq<State>, i: nat, j: nat)
    requires i < j <= |a| == |b| && a[i..j] == b[i..j]
    ensures forall k :: i <= k < j ==> (Blamed(a, i, j, k) <==> Blamed(b, i, j, k))
  {
    assert forall k :: i <= k < j ==> a[k] == a[i..j][k - i] && b[k] == b[i..j][k - i];
  }

  /** After merging, the states of the group are eligible that were ready. */
  ghost predicate MergedAs(orig: seq<State>, now: seq<State>, i: nat, j: nat) {
    && i < j <= |orig| == |now|
    && forall k :: i <= k < j ==>
         && SameButFlags(orig[k], now[k])
         && ((now[k].flags.unexpected || now[k].flags.uncertain) <==> Blamed(orig, i, j, k))
  }

  lemma TrueFromGroup(env: Env, orig: seq<State>, now: seq<State>, i: nat, j: nat, at: nat)
    requires env.Valid() && env.KnowsAll(orig) && env.trueSignature && MergedAs(orig, now, i, j) && i <= at < j
    requires Eligible(now[at]) && forall k :: i <= k < at ==> !Eligible(now[k])
    ensures FromGroup(env, orig, i, j, Func(orig[i].elf, at, true))
  {
    hide Blamed, Env.Valid;
  }

  lemma NoneReady(env: Env, orig: seq<State>, now: seq<State>, i: nat, j: nat, at: nat)
    requires env.Valid() && env.KnowsAll(orig) && MergedAs(orig, now, i, j) && at <= |now|
    requires forall k :: i <= k < at ==> !Eligible(now[k])
    requires at < |now| ==> now[at].elf != now[i].elf
    requires forall k :: i <= k < j ==> orig[k].elf == orig[i].elf
    requires i <= at
    ensures forall k :: i <= k < j ==> !Ready(orig, i, j, k)
  {
    hide Blamed, Env.Valid;
    assert at < |now| && at < j ==> now[at].elf == orig[at].elf;
  }

  lemma PlainFromGroup(env: Env, orig: seq<State>, i: nat, j: nat, f: Func)
    requires env.Valid() && env.KnowsAll(orig) && i < j <= |orig| && f.elf == orig[i].elf && !f.trueSignature
    requires env.trueSignature ==> forall k :: i <= k < j ==> !Ready(orig, i, j, k)
    requires env.KnowsAll(orig[i..j]) && Written(env, orig[i..j]) && f.index == i + Canonical(env, orig[i..j])
    ensures FromGroup(env, orig, i, j, f)
  {
    hide Written, Blamed, Env.Valid, Canonical;
  }

  lemma NothingComes(env: Env, orig: seq<State>, i: nat, j: nat)
    requires env.Valid() && env.KnowsAll(orig) && i < j <= |orig|
    requires env.trueSignature ==> forall k :: i <= k < j ==> !Ready(orig, i, j, k)
    requires env.KnowsAll(orig[i..j]) && !Written(env, orig[i..j])
    ensures !Comes(env, orig, i, j)
  {
    hide Written, Blamed, Env.Valid;
  }

  lemma AllSettled(env: Env, orig: seq<State>, funcs: seq<Func>)
    requires env.Valid() && env.KnowsAll(orig) && Progress(env, orig, |orig|, funcs)
    ensures forall q :: 0 <= q < |funcs| && !funcs[q].trueSignature ==>
              exists i, j :: IsGroup(orig, i, j) && funcs[q].elf == orig[i].elf && WrittenAs(env, orig, i, j, funcs[q].index)
    ensures forall i, j, k :: IsGroup(orig, i, j) && WrittenAs(env, orig, i, j, k) ==> Emits(funcs, orig[i].elf)
    ensures forall q :: 0 <= q < |funcs| && funcs[q].trueSignature ==>
              exists i, j ::
                && IsGroup(orig, i, j) && funcs[q].elf == orig[i].elf && i <= funcs[q].index < j && env.trueSignature
                && orig[funcs[q].index].sym && !orig[funcs[q].index].ambiguousAddr
                && forall m :: i <= m < j && (m <= funcs[q].index || funcs[q].index == i) ==>
                     !orig[m].flags.unexpected && !orig[m].flags.uncertain
    ensures env.trueSignature ==>
              forall i, j, k ::
                && IsGroup(orig, i, j) && i <= k < j && orig[k].sym && !orig[k].ambiguousAddr
                && (forall m :: i <= m < j && (m <= k || k == i) ==> !orig[m].flags.unexpected && !orig[m].flags.uncertain)
                ==> exists q :: 0 <= q < |funcs| && funcs[q].elf == orig[i].elf && funcs[q].trueSignature && funcs[q].index <= k
  {
    hide Written, Env.Valid, Env.KnowsAll, Canonical, FromGroup, IsGroup;
    Settled(env, orig, funcs);
    forall i, j, k | IsGroup(orig, i, j) && WrittenAs(env, orig, i, j, k) ensures Emits(funcs, orig[i].elf) {
      assert j <= |orig| && Comes(env, orig, i, j);
    }
    if env.trueSignature {
      forall i, j, k |
        && IsGroup(orig, i, j) && i <= k < j && orig[k].sym && !orig[k].ambiguousAddr
        && (forall m :: i <= m < j && (m <= k || k == i) ==> !orig[m].flags.unexpected && !orig[m].flags.uncertain)
        ensures exists q :: 0 <= q < |funcs| && funcs[q].elf == orig[i].elf && funcs[q].trueSignature && funcs[q].index <= k
      {
        assert Ready(orig, i, j, k);
        SettledTrue(env, orig, funcs, i, j, k);
      }
    }
  }

  // ----- merging does not share every problem -----

  /** A state of one function without parameters, at a symbol of its own or not, with a problem or not. */
  function Instance(sym: bool, problem: bool): State {
    State(0, sym, 16, 0, [], Flags(problem, false, false, false), false, false, false, false)
  }

  /**
   Three states of one function: a plain one, one at a symbol of its own, one with an unexpected register.
   The order of equals is qsort's choice; if the last two swap places the function is not written.
   */
  method OrderMattersExample(problemLast: bool) returns (funcs: seq<Func>)
    ensures funcs == if problemLast then [Func(0, 1, true)] else []
  {
    hide NF, Agree, Matches, Descends, Chain, WrittenAs, InOrder, Canonical;
    var env := Env(Graph(0, [], [0]), [ElfFunction("f", [16], false)], true, true);
    var order := [Instance(false, false), Instance(problemLast, !problemLast), Instance(!problemLast, problemLast)];
    var states := new State[3](k requires 0 <= k < 3 => order[k]);
    assert states[..] == order;
    OneFunction(env, order);
    funcs := AddSavedFuncs(env, states);
    OneOutcome(env, order, funcs, problemLast);
  }

  lemma OneFunction(env: Env, order: seq<State>)
    requires env.g == Graph(0, [], [0]) && |env.elves| == 1
    requires forall s :: s in order ==> exists sym, problem :: s == Instance(sym, problem)
    ensures env.Valid() && env.KnowsAll(order) && Sorted(env, order)
  {
    StrcmpZero(env.elves[0].name, env.elves[0].name);
    forall k | 0 <= k < |order| ensures env.Knows(order[k]) && order[k].elf == 0 && order[k].addr == 16 {
      assert order[k] in order;
    }
  }

  predicate FromSecond(problemLast: bool, f: Func) { problemLast && f == Func(0, 1, true) }

  lemma OneOutcome(env: Env, order: seq<State>, funcs: seq<Func>, problemLast: bool)
    requires env.Valid() && env.KnowsAll(order) && env.trueSignature
    requires order == [Instance(false, false), Instance(problemLast, !problemLast), Instance(!problemLast, problemLast)]
    requires Progress(env, order, 3, funcs)
    ensures funcs == if problemLast then [Func(0, 1, true)] else []
  {
    hide NF, Agree, AnchorAgrees, Canonical, Env.Valid, Env.KnowsAll, Comes, FromGroup, SkipOptimized;
    assert IsGroup(order, 0, 3);
    assert order[1] == Instance(problemLast, !problemLast) && order[2] == Instance(!problemLast, problemLast);
    assert !problemLast ==> Blamed(order, 0, 3, 2) by { assert order[1].flags.unexpected <==> !problemLast; }
    assert !Ready(order, 0, 3, 0) && (Ready(order, 0, 3, 1) <==> problemLast) && !Ready(order, 0, 3, 2);
    KnowsPart(env, order, 0, 3);
    assert order[0..3] == order;
    NotTrusted(env, order, if problemLast then 2 else 1);
    hide Ready, Blamed, Written, IsGroup;
    forall q | 0 <= q < |funcs| ensures FromSecond(problemLast, funcs[q]) {
      var f := funcs[q];
      var i, j :| IsGroup(order, i, j) && j <= 3 && FromGroup(env, order, i, j, f);
      OneGroup(order, 0, 3, i, j);
      OnlyThat(env, order, funcs[q], problemLast);
    }
    assert funcs != [] ==> FromSecond(problemLast, funcs[0]);
    if problemLast {
      ReadyComes(env, order, 0, 3, 1);
      assert Emits(funcs, 0);
      assert |funcs| > 1 ==> funcs[0].elf != funcs[1].elf;
    }
  }

  lemma ReadyComes(env: Env, orig: seq<State>, i: int, j: int, k: int)
    requires env.Valid() && env.KnowsAll(orig) && 0 <= i < j <= |orig| && env.trueSignature && Ready(orig, i, j, k)
    ensures Comes(env, orig, i, j)
  {
    hide Ready, Written;
  }

  lemma NotTrusted(env: Env, group: seq<State>, k: nat)
    requires env.Valid() && env.KnowsAll(group) && k < |group| && group[k].flags.unexpected
    ensures !Written(env, group)
  {
    hide Env.Valid, Env.KnowsAll, AnchorAgrees, Canonical;
  }

  lemma OnlyThat(env: Env, order: seq<State>, f: Func, problemLast: bool)
    requires env.Valid() && env.KnowsAll(order) && |order| == 3 && order[0].elf == 0 && env.KnowsAll(order[0..3])
    requires !Ready(order, 0, 3, 0) && (Ready(order, 0, 3, 1) <==> problemLast) && !Ready(order, 0, 3, 2)
    requires !Written(env, order[0..3]) && FromGroup(env, order, 0, 3, f)
    ensures FromSecond(problemLast, f)
  {
    hide Ready, Written, Env.Valid, Env.KnowsAll, Canonical;
  }
}
