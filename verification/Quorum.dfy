/**
 The vote over what several RPC endpoints report about one transfer. Reports are grouped by value; the
 largest group decides if it reaches the threshold, at the smallest depth any of its members reports.
 */
module Quorum {
  function Min(a: int, b: int): int { if a < b then a else b }
  function Max(a: int, b: int): int { if a < b then b else a }

  /** Agreement needed with this many endpoints configured. */
  function Threshold(configured: nat, quorum: int): int {
    Max(1, Min(configured, quorum))
  }

  /** As many as configured or as the quorum asks for, whichever is less, and one in any case. */
  lemma ThresholdIs(configured: nat, quorum: int)
    ensures var t := Threshold(configured, quorum);
      && (1 <= configured <= quorum ==> t == configured)
      && (1 <= quorum <= configured ==> t == quorum)
      && (configured == 0 || quorum <= 0 ==> t == 1)
  {
  }

  datatype Observation = Observation(value: int, confirmations: nat)

  datatype Decision =
    | Agreed(value: int, confirmations: nat, agree: nat)
    | Conflict(agree: nat)
    | Insufficient(agree: nat)

  // ---------------------------------------------------------------- counting reference

  /** How many reports give the value `v`. */
  function Count(obs: seq<Observation>, v: int): (n: nat)
    ensures n <= |obs|
  {
    if obs == [] then 0
    else Count(obs[..|obs| - 1], v) + if obs[|obs| - 1].value == v then 1 else 0
  }

  predicate Reports(obs: seq<Observation>, v: int) {
    exists i :: 0 <= i < |obs| && obs[i].value == v
  }

  /** Smallest depth among the reports of `v`. */
  function Depth(obs: seq<Observation>, v: int): nat
    requires Reports(obs, v)
  {
    var last := obs[|obs| - 1];
    var rest := obs[..|obs| - 1];
    if last.value != v then Depth(Shorter(obs, v), v)
    else if Reports(rest, v) then Min(Depth(rest, v), last.confirmations)
    else last.confirmations
  }

  function Shorter(obs: seq<Observation>, v: int): (rest: seq<Observation>)
    requires Reports(obs, v) && obs[|obs| - 1].value != v
    ensures rest == obs[..|obs| - 1] && Reports(rest, v)
  {
    var i :| 0 <= i < |obs| && obs[i].value == v;
    assert obs[..|obs| - 1][i].value == v;
    obs[..|obs| - 1]
  }

  /** `w` is the first report of a value no other value outnumbers. */
  ghost predicate IsTop(obs: seq<Observation>, w: nat) {
    && w < |obs|
    && (forall i | 0 <= i < |obs| :: Count(obs, obs[i].value) <= Count(obs, obs[w].value))
    && (forall i | 0 <= i < w :: Count(obs, obs[i].value) < Count(obs, obs[w].value))
  }

  /** First report among the first `n` whose value is not outnumbered by those of the first `n`. */
  function TopAmong(obs: seq<Observation>, n: nat): (w: nat)
    requires 0 < n <= |obs|
    ensures w < n
    ensures forall i | 0 <= i < n :: Count(obs, obs[i].value) <= Count(obs, obs[w].value)
    ensures forall i | 0 <= i < w :: Count(obs, obs[i].value) < Count(obs, obs[w].value)
  {
    if n == 1 then 0
    else
      var w := TopAmong(obs, n - 1);
      if Count(obs, obs[n - 1].value) > Count(obs, obs[w].value) then n - 1 else w
  }

  predicate Unanimous(obs: seq<Observation>) {
    forall i | 0 <= i < |obs| :: obs[i].value == obs[0].value
  }

  function Decide(obs: seq<Observation>, threshold: int): Decision {
    if obs == [] then Insufficient(0)
    else
      var v := obs[TopAmong(obs, |obs|)].value;
      var agree := Count(obs, v);
      if agree >= threshold then Agreed(v, Depth(obs, v), agree)
      else if Unanimous(obs) then Insufficient(agree)
      else Conflict(agree)
  }

  // ---------------------------------------------------------------- the grouping loops

  /** One entry of the `byValue` map; the map is kept in insertion order. */
  datatype Group = Group(value: int, count: nat, minConf: nat)

  function Find(groups: seq<Group>, v: int): (k: int)
    ensures -1 <= k < |groups|
    ensures k >= 0 ==> groups[k].value == v
    ensures k == -1 ==> forall j | 0 <= j < |groups| :: groups[j].value != v
  {
    if groups == [] then -1
    else if groups[|groups| - 1].value == v then |groups| - 1
    else Find(groups[..|groups| - 1], v)
  }

  function AddReport(groups: seq<Group>, o: Observation): seq<Group> {
    var k := Find(groups, o.value);
    if k >= 0 then
      groups[k := Group(o.value, groups[k].count + 1, Min(groups[k].minConf, o.confirmations))]
    else
      groups + [Group(o.value, 1, o.confirmations)]
  }

  function GroupsOf(obs: seq<Observation>): seq<Group> {
    if obs == [] then [] else AddReport(GroupsOf(obs[..|obs| - 1]), obs[|obs| - 1])
  }

  /** Position of the first report of `v`, or the number of reports. */
  function FirstReport(obs: seq<Observation>, v: int): (i: nat)
    ensures i <= |obs| && (forall j | 0 <= j < i :: obs[j].value != v)
    ensures i < |obs| ==> obs[i].value == v
  {
    if obs == [] || obs[0].value == v then 0 else 1 + FirstReport(obs[1..], v)
  }

  predicate Fits(obs: seq<Observation>, g: Group) {
    Reports(obs, g.value) && g.count == Count(obs, g.value) && g.minConf == Depth(obs, g.value)
  }

  /** One group per reported value, in order of first report, each with its count and depth. */
  ghost predicate Grouped(obs: seq<Observation>, groups: seq<Group>) {
    && (forall k | 0 <= k < |groups| :: Fits(obs, groups[k]))
    && (forall j, k | 0 <= j < k < |groups| ::
          FirstReport(obs, groups[j].value) < FirstReport(obs, groups[k].value))
    && (forall i | 0 <= i < |obs| :: Find(groups, obs[i].value) >= 0)
  }

  lemma ReportsStep(obs: seq<Observation>, o: Observation, v: int)
    ensures Reports(obs + [o], v) <==> Reports(obs, v) || v == o.value
    ensures Reports(obs, v) ==> FirstReport(obs + [o], v) == FirstReport(obs, v) < |obs|
    ensures !Reports(obs, v) && v == o.value ==> FirstReport(obs + [o], v) == |obs|
  {
    var next := obs + [o];
    assert next[|obs|] == o && forall i | 0 <= i < |obs| :: next[i] == obs[i];
    if Reports(obs, v) {
      var i :| 0 <= i < |obs| && obs[i].value == v;
      assert next[i].value == v;
    }
  }

  lemma FitsStep(obs: seq<Observation>, o: Observation, g: Group)
    ensures Fits(obs, g) && g.value != o.value ==> Fits(obs + [o], g)
    ensures Fits(obs, g) && g.value == o.value ==>
      Fits(obs + [o], Group(o.value, g.count + 1, Min(g.minConf, o.confirmations)))
    ensures !Reports(obs, o.value) ==> Fits(obs + [o], Group(o.value, 1, o.confirmations))
  {
    var next := obs + [o];
    assert next[..|next| - 1] == obs;
    ReportsStep(obs, o, g.value);
    ReportsStep(obs, o, o.value);
    CountZero(obs, o.value);
  }

  lemma OldGroupStep(obs: seq<Observation>, o: Observation, groups: seq<Group>, j: nat)
    requires Grouped(obs, groups) && j < |groups|
    ensures var g := AddReport(groups, o)[j];
      && Fits(obs + [o], g) && g.value == groups[j].value
      && FirstReport(obs + [o], g.value) == FirstReport(obs, groups[j].value) < |obs|
  {
    var k := Find(groups, o.value);
    assert Fits(obs, groups[j]);
    FitsStep(obs, o, groups[j]);
    ReportsStep(obs, o, groups[j].value);
    assert groups[j].value == o.value ==> groups[k].value == groups[j].value;
  }

  lemma CoverStep(obs: seq<Observation>, o: Observation, groups: seq<Group>, i: nat)
    requires Grouped(obs, groups) && i <= |obs|
    ensures Find(AddReport(groups, o), (obs + [o])[i].value) >= 0
  {
    var gs, k := AddReport(groups, o), Find(groups, o.value);
    var m := if i < |obs| then Find(groups, obs[i].value) else if k == -1 then |groups| else k;
    assert gs[m].value == (obs + [o])[i].value;
  }

  lemma GroupStep(obs: seq<Observation>, o: Observation, groups: seq<Group>)
    requires Grouped(obs, groups)
    ensures Grouped(obs + [o], AddReport(groups, o))
  {
    hide Fits, FirstReport, Find;
    var next, gs := obs + [o], AddReport(groups, o);
    forall j | 0 <= j < |groups|
      ensures Fits(next, gs[j]) && FirstReport(next, gs[j].value) == FirstReport(obs, groups[j].value) < |obs|
    {
      OldGroupStep(obs, o, groups, j);
    }
    if Find(groups, o.value) == -1 {
      assert !Reports(obs, o.value);
      FitsStep(obs, o, Group(o.value, 1, o.confirmations));
      ReportsStep(obs, o, o.value);
    }
    forall i | 0 <= i < |next| ensures Find(gs, next[i].value) >= 0 {
      CoverStep(obs, o, groups, i);
    }
  }

  lemma {:induction false} GroupsGrouped(obs: seq<Observation>)
    ensures Grouped(obs, GroupsOf(obs))
    ensures GroupsOf(obs) == [] <==> obs == []
  {
    hide Fits, FirstReport, Find, Count, Depth, Reports;
    if obs != [] {
      var n := |obs| - 1;
      GroupsGrouped(obs[..n]);
      GroupStep(obs[..n], obs[n], GroupsOf(obs[..n]));
      assert obs == obs[..n] + [obs[n]];
    }
  }

  lemma {:induction false} CountZero(obs: seq<Observation>, v: int)
    ensures Count(obs, v) == 0 <==> !Reports(obs, v)
  {
    if obs != [] {
      var rest := obs[..|obs| - 1];
      CountZero(rest, v);
      assert forall i | 0 <= i < |rest| :: rest[i] == obs[i];
    }
  }

  lemma TopUnique(obs: seq<Observation>, w: nat)
    requires IsTop(obs, w)
    ensures TopAmong(obs, |obs|) == w
  {
  }

  method DecideTransferQuorum(observations: seq<Observation>, threshold: int) returns (d: Decision)
    ensures d == Decide(observations, threshold)
  {
    hide Count, Depth, TopAmong, FirstReport, Find, Reports, Grouped;
    var byValue: seq<Group> := [];
    for i := 0 to |observations|
      invariant byValue == GroupsOf(observations[..i])
    {
      var obs := observations[i];
      assert observations[..i + 1][..i] == observations[..i];
      var k := Find(byValue, obs.value);
      if k >= 0 {
        var g := byValue[k];
        byValue := byValue[k := Group(g.value, g.count + 1, Min(g.minConf, obs.confirmations))];
      } else {
        byValue := byValue + [Group(obs.value, 1, obs.confirmations)];
      }
    }
    assert observations[..|observations|] == observations;
    if |byValue| == 0 {
      GroupsGrouped(observations);
      return Insufficient(0);
    }
    var top := 0;
    for k := 1 to |byValue|
      invariant top < k
      invariant forall j | 0 <= j < k :: byValue[j].count <= byValue[top].count
      invariant forall j | 0 <= j < top :: byValue[j].count < byValue[top].count
    {
      if byValue[k].count > byValue[top].count {
        top := k;
      }
    }
    GroupsGrouped(observations);
    TopGroup(observations, byValue, top);
    SizeOfGroups(observations, byValue);
    var g := byValue[top];
    if g.count >= threshold {
      return Agreed(g.value, g.minConf, g.count);
    }
    return if |byValue| > 1 then Conflict(g.count) else Insufficient(g.count);
  }

  lemma CountWithin(obs: seq<Observation>, groups: seq<Group>, i: nat) returns (k: nat)
    requires Grouped(obs, groups) && i < |obs|
    ensures k < |groups| && Count(obs, obs[i].value) == groups[k].count
    ensures FirstReport(obs, groups[k].value) <= i
  {
    k := Find(groups, obs[i].value);
    assert Fits(obs, groups[k]);
  }

  lemma TopGroup(obs: seq<Observation>, groups: seq<Group>, top: nat)
    requires Grouped(obs, groups) && top < |groups|
    requires forall j | 0 <= j < |groups| :: groups[j].count <= groups[top].count
    requires forall j | 0 <= j < top :: groups[j].count < groups[top].count
    ensures obs != [] && obs[TopAmong(obs, |obs|)].value == groups[top].value
    ensures Fits(obs, groups[top])
  {
    hide Count, Depth, TopAmong, FirstReport;
    assert Fits(obs, groups[top]);
    var w := FirstReport(obs, groups[top].value);
    var most := groups[top].count;
    forall i | 0 <= i < |obs|
      ensures Count(obs, obs[i].value) <= most
      ensures i < w ==> Count(obs, obs[i].value) < most
    {
      var k := CountWithin(obs, groups, i);
    }
    TopUnique(obs, w);
  }

  lemma SizeOfGroups(obs: seq<Observation>, groups: seq<Group>)
    requires Grouped(obs, groups) && groups != []
    ensures obs != [] && (|groups| > 1 <==> !Unanimous(obs))
  {
    var i := FirstReport(obs, groups[0].value);
    assert Fits(obs, groups[0]);
    if |groups| > 1 {
      assert Fits(obs, groups[1]);
      var j := FirstReport(obs, groups[1].value);
      assert obs[i].value != obs[j].value;
    } else {
      forall j | 0 <= j < |obs| ensures obs[j].value == groups[0].value {
        assert Find(groups, obs[j].value) >= 0;
      }
    }
  }

  // ---------------------------------------------------------------- what a decision means

  lemma {:induction false} DepthIsMinimum(obs: seq<Observation>, v: int)
    requires Reports(obs, v)
    ensures forall i | 0 <= i < |obs| && obs[i].value == v :: Depth(obs, v) <= obs[i].confirmations
    ensures exists i :: 0 <= i < |obs| && obs[i].value == v && obs[i].confirmations == Depth(obs, v)
  {
    var n := |obs| - 1;
    var rest := obs[..n];
    if obs[n].value != v {
      assert Shorter(obs, v) == rest;
    }
    if Reports(rest, v) {
      DepthIsMinimum(rest, v);
      var i :| 0 <= i < |rest| && rest[i].value == v && rest[i].confirmations == Depth(rest, v);
      assert obs[i] == rest[i];
      assert forall j | 0 <= j < n :: rest[j] == obs[j];
    } else {
      assert obs[n].confirmations == Depth(obs, v);
      assert forall j | 0 <= j < n :: rest[j] == obs[j];
    }
  }

  /** Agreement is reached exactly when some value has threshold reports; the depth is their minimum. */
  lemma AgreedIff(obs: seq<Observation>, threshold: int)
    ensures Decide(obs, threshold).Agreed? <==> exists i :: 0 <= i < |obs| && Count(obs, obs[i].value) >= threshold
    ensures var d := Decide(obs, threshold);
      && (forall v :: Count(obs, v) <= d.agree)
      && (obs == [] ==> d == Insufficient(0))
      && (obs != [] ==> exists i :: 0 <= i < |obs| && Count(obs, obs[i].value) == d.agree)
      && (d.Agreed? ==>
            && Count(obs, d.value) == d.agree >= threshold
            && (forall i | 0 <= i < |obs| && obs[i].value == d.value :: d.confirmations <= obs[i].confirmations)
            && (exists i :: 0 <= i < |obs| && obs[i] == Observation(d.value, d.confirmations)))
      && (d.Conflict? ==> exists i, j :: 0 <= i < j < |obs| && obs[i].value != obs[j].value)
      && (d.Insufficient? ==> forall i, j | 0 <= i < j < |obs| :: obs[i].value == obs[j].value)
  {
    hide Count, Depth, TopAmong;
    if obs != [] {
      var w := TopAmong(obs, |obs|);
      assert Reports(obs, obs[w].value);
      DepthIsMinimum(obs, obs[w].value);
      var i :| 0 <= i < |obs| && obs[i].value == obs[w].value && obs[i].confirmations == Depth(obs, obs[w].value);
      assert obs[i] == Observation(obs[w].value, Depth(obs, obs[w].value));
    }
    forall v ensures Count(obs, v) <= Decide(obs, threshold).agree {
      CountZero(obs, v);
    }
  }

  lemma {:induction false} CountConcat(a: seq<Observation>, b: seq<Observation>, v: int)
    ensures Count(a + b, v) == Count(a, v) + Count(b, v)
  {
    if b == [] {
      assert a + b == a;
    } else {
      var n := |b| - 1;
      assert (a + b)[..|a + b| - 1] == a + b[..n];
      CountConcat(a, b[..n], v);
    }
  }

  lemma RemoveFirst(a: seq<Observation>, b: seq<Observation>) returns (j: nat)
    requires multiset(a) == multiset(b) && a != []
    ensures j < |b| && b[j] == a[0] && multiset(a[1..]) == multiset(b[..j] + b[j + 1..])
  {
    var x := a[0];
    j := MemberPermutation(a, b, 0);
    assert a == [x] + a[1..] && b == b[..j] + ([x] + b[j + 1..]);
    assert multiset(a) == multiset{x} + multiset(a[1..]);
    assert multiset(b) == multiset(b[..j]) + (multiset{x} + multiset(b[j + 1..]));
    assert multiset(b[..j] + b[j + 1..]) == multiset(b[..j]) + multiset(b[j + 1..]);
    assert multiset(a[1..]) == multiset(a) - multiset{x};
  }

  lemma {:induction false} CountPermutation(a: seq<Observation>, b: seq<Observation>, v: int)
    requires multiset(a) == multiset(b)
    ensures Count(a, v) == Count(b, v)
  {
    assert |a| == |multiset(a)| == |multiset(b)| == |b|;
    if a != [] {
      var j := RemoveFirst(a, b);
      CountPermutation(a[1..], b[..j] + b[j + 1..], v);
      assert a == [a[0]] + a[1..] && b == b[..j] + ([a[0]] + b[j + 1..]);
      CountConcat([a[0]], a[1..], v);
      CountConcat(b[..j], [a[0]] + b[j + 1..], v);
      CountConcat([a[0]], b[j + 1..], v);
      CountConcat(b[..j], b[j + 1..], v);
    }
  }

  lemma MemberPermutation(a: seq<Observation>, b: seq<Observation>, i: nat) returns (j: nat)
    requires multiset(a) == multiset(b) && i < |a|
    ensures j < |b| && b[j] == a[i]
  {
    assert a[i] in multiset(a);
    assert a[i] in multiset(b);
    j :| 0 <= j < |b| && b[j] == a[i];
  }

  lemma DepthPermutation(a: seq<Observation>, b: seq<Observation>, v: int)
    requires multiset(a) == multiset(b) && Reports(a, v) && Reports(b, v)
    ensures Depth(a, v) == Depth(b, v)
  {
    DepthIsMinimum(a, v);
    DepthIsMinimum(b, v);
    var i :| 0 <= i < |a| && a[i].value == v && a[i].confirmations == Depth(a, v);
    var j := MemberPermutation(a, b, i);
    var k :| 0 <= k < |b| && b[k].value == v && b[k].confirmations == Depth(b, v);
    var l := MemberPermutation(b, a, k);
  }

  lemma {:induction false} TwoCounts(obs: seq<Observation>, v: int, w: int)
    requires v != w
    ensures Count(obs, v) + Count(obs, w) <= |obs|
  {
    if obs != [] {
      TwoCounts(obs[..|obs| - 1], v, w);
    }
  }

  /**
   The order in which endpoints answered decides nothing but a tie: status and support depend only on
   the multiset of reports, and so do value and depth once two groups cannot both reach the threshold.
   */
  lemma OrderIrrelevant(a: seq<Observation>, b: seq<Observation>, threshold: int)
    requires multiset(a) == multiset(b)
    ensures var d, e := Decide(a, threshold), Decide(b, threshold);
      && d.agree == e.agree
      && (d.Agreed? <==> e.Agreed?) && (d.Conflict? <==> e.Conflict?)
      && (2 * threshold > |a| ==> d == e)
  {
    hide Count, Depth, TopAmong, Unanimous;
    assert |a| == |multiset(a)| == |multiset(b)| == |b|;
    if a != [] {
      var d, e := Decide(a, threshold), Decide(b, threshold);
      var v, w := a[TopAmong(a, |a|)].value, b[TopAmong(b, |b|)].value;
      var i := MemberPermutation(a, b, TopAmong(a, |a|));
      var j := MemberPermutation(b, a, TopAmong(b, |b|));
      CountPermutation(a, b, v);
      CountPermutation(a, b, w);
      assert d.agree == e.agree;
      if Unanimous(a) {
        UnanimousPermutation(a, b);
      } else if Unanimous(b) {
        UnanimousPermutation(b, a);
      }
      if 2 * threshold > |a| && d.Agreed? {
        if v != w {
          TwoCounts(a, v, w);
          assert false;
        }
        assert Reports(a, v) && Reports(b, v);
        DepthPermutation(a, b, v);
      }
    }
  }

  lemma UnanimousPermutation(a: seq<Observation>, b: seq<Observation>)
    requires multiset(a) == multiset(b) && a != [] && Unanimous(a)
    ensures Unanimous(b)
  {
    forall k | 0 <= k < |b| ensures b[k].value == a[0].value {
      var l := MemberPermutation(b, a, k);
    }
  }

  /** Two different values share the largest support, and it is enough to agree. */
  predicate Tied(obs: seq<Observation>, threshold: int) {
    exists i, j :: 0 <= i < |obs| && 0 <= j < |obs| && TiedAt(obs, threshold, i, j)
  }

  predicate TiedAt(obs: seq<Observation>, threshold: int, i: nat, j: nat)
    requires i < |obs| && j < |obs|
  {
    && obs[i].value != obs[j].value
    && Count(obs, obs[i].value) == Count(obs, obs[j].value) >= threshold
    && forall k | 0 <= k < |obs| :: Count(obs, obs[k].value) <= Count(obs, obs[i].value)
  }

  lemma UntiedSame(a: seq<Observation>, b: seq<Observation>, threshold: int)
    requires multiset(a) == multiset(b) && !Tied(a, threshold)
    ensures Decide(a, threshold) == Decide(b, threshold)
  {
    hide Count, Depth, TopAmong, Unanimous;
    OrderIrrelevant(a, b, threshold);
    assert |a| == |multiset(a)| == |multiset(b)| == |b|;
    if a != [] && Decide(a, threshold).Agreed? {
      var v, w := a[TopAmong(a, |a|)].value, b[TopAmong(b, |b|)].value;
      var i := MemberPermutation(b, a, TopAmong(b, |b|));
      CountPermutation(a, b, w);
      assert !TiedAt(a, threshold, TopAmong(a, |a|), i);
      assert v == w;
      var j := MemberPermutation(a, b, TopAmong(a, |a|));
      assert Reports(a, v) && Reports(b, v);
      DepthPermutation(a, b, v);
    }
  }

  /** The reports with report `i` first. */
  function ToFront(obs: seq<Observation>, i: nat): (r: seq<Observation>)
    requires i < |obs|
    ensures multiset(r) == multiset(obs)
  {
    assert obs == obs[..i] + [obs[i]] + obs[i + 1..];
    [obs[i]] + obs[..i] + obs[i + 1..]
  }

  lemma FrontWins(obs: seq<Observation>, threshold: int, i: nat)
    requires i < |obs| && Count(obs, obs[i].value) >= threshold
    requires forall k | 0 <= k < |obs| :: Count(obs, obs[k].value) <= Count(obs, obs[i].value)
    ensures Decide(ToFront(obs, i), threshold).Agreed? && Decide(ToFront(obs, i), threshold).value == obs[i].value
  {
    hide Count, Depth, TopAmong, Unanimous;
    var moved := ToFront(obs, i);
    CountPermutation(moved, obs, obs[i].value);
    forall k | 0 <= k < |moved| ensures Count(moved, moved[k].value) <= Count(moved, moved[0].value) {
      var j := MemberPermutation(moved, obs, k);
      CountPermutation(moved, obs, moved[k].value);
    }
    TopUnique(moved, 0);
  }

  /** Exactly when the order of the answers matters: some order gives another decision if and only if there is a tie. */
  lemma OrderDecidesIff(obs: seq<Observation>, threshold: int)
    ensures (forall other | multiset(other) == multiset(obs) :: Decide(other, threshold) == Decide(obs, threshold))
            <==> !Tied(obs, threshold)
  {
    hide Count, Decide;
    if Tied(obs, threshold) {
      var i, j :| 0 <= i < |obs| && 0 <= j < |obs| && TiedAt(obs, threshold, i, j);
      FrontWins(obs, threshold, i);
      FrontWins(obs, threshold, j);
      assert multiset(ToFront(obs, i)) == multiset(obs) && multiset(ToFront(obs, j)) == multiset(obs);
    } else {
      forall other | multiset(other) == multiset(obs) ensures Decide(other, threshold) == Decide(obs, threshold) {
        UntiedSame(obs, other, threshold);
      }
    }
  }

  /** Such a tie with the default quorum: of four reports, two and two, the first value wins. */
  lemma TieDependsOnOrder()
    ensures var a, b := Observation(1, 9), Observation(2, 9);
      && multiset([a, a, b, b]) == multiset([b, b, a, a])
      && Decide([a, a, b, b], 2) == Agreed(1, 9, 2) && Decide([b, b, a, a], 2) == Agreed(2, 9, 2)
  {
    var a, b := Observation(1, 9), Observation(2, 9);
    Tie(a, b);
    Tie(b, a);
    assert multiset([a, a, b, b]) == multiset{a, a, b, b};
  }

  lemma Tie(a: Observation, b: Observation)
    requires a.value != b.value
    ensures Decide([a, a, b, b], 2) == Agreed(a.value, a.confirmations, 2)
  {
    var obs := [a, a, b, b];
    assert obs[..3] == [a, a, b] && [a, a, b][..2] == [a, a] && [a, a][..1] == [a] && [a][..0] == [];
    assert Count([a], a.value) == 1 && Count([a], b.value) == 0;
    assert Count([a, a], a.value) == 2 && Count([a, a], b.value) == 0;
    assert Count([a, a, b], a.value) == 2 && Count([a, a, b], b.value) == 1;
    assert Count(obs, a.value) == 2 && Count(obs, b.value) == 2;
    TopUnique(obs, 0);
    assert obs[0].value == a.value;
    DepthIsMinimum(obs, a.value);
  }

  /** Honest reports of one value that reach the threshold and outnumber all others win. */
  lemma MajorityWins(obs: seq<Observation>, v: int, threshold: int)
    requires 1 <= threshold <= Count(obs, v) && |obs| - Count(obs, v) < Count(obs, v)
    ensures Decide(obs, threshold).Agreed? && Decide(obs, threshold).value == v
  {
    hide Count, Depth, TopAmong;
    CountZero(obs, v);
    var w := obs[TopAmong(obs, |obs|)].value;
    if w != v {
      TwoCounts(obs, v, w);
    }
  }
}
