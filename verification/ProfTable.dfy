/** The section table of proflog.c: what a sequence of charges leaves in it. */
module ProfTable {
  import opened Words

  const MAXSECTIONS := 64
  const UNKNOWN := "<unknown>"

  /** The three counters that are summed; the fourth, user counter is only printed. */
  datatype Counters = Counters(cycle: u32, counter0: u32, counter1: u32)

  function Get(c: Counters, k: nat): u32 {
    if k == 0 then c.cycle else if k == 1 then c.counter0 else c.counter1
  }

  lemma CounterOrder(c: Counters)
    ensures Get(c, 0) == c.cycle && Get(c, 1) == c.counter0 && Get(c, 2) == c.counter1
  {}

  /** One call of _ProfLogSection. `adjacent` tells whether its two entries are neighbours in the log. */
  datatype Charge = Charge(name: string, from: Counters, to: Counters, adjacent: bool)

  datatype Section = Section(pName: string, nEntry: nat, count: Counters)

  function Sub32(a: u32, b: u32): u32 { (a - b) % W32 }

  function Add32(a: u32, b: u32): u32 { (a + b) % W32 }

  function Bump(s: Section, c: Charge): Section {
    Section(s.pName, s.nEntry + 1,
            Counters(Add32(s.count.cycle, Sub32(c.to.cycle, c.from.cycle)),
                     Add32(s.count.counter0, Sub32(c.to.counter0, c.from.counter0)),
                     Add32(s.count.counter1, Sub32(c.to.counter1, c.from.counter1))))
  }

  /** Index of the first section of that name, or the table's length. */
  function Find(t: seq<Section>, name: string): (i: nat)
    ensures i <= |t|
    ensures i < |t| ==> t[i].pName == name
    ensures forall j :: 0 <= j < i ==> t[j].pName != name
  {
    if t == [] || t[0].pName == name then 0
    else
      var i := Find(t[1..], name);
      assert forall j :: 1 <= j < 1 + i ==> t[j] == t[1..][j - 1];
      1 + i
  }

  lemma FindIs(t: seq<Section>, name: string, i: nat)
    requires i <= |t| && (i < |t| ==> t[i].pName == name)
    requires forall j :: 0 <= j < i ==> t[j].pName != name
    ensures Find(t, name) == i
  {}

  const EMPTY := Counters(0, 0, 0)

  /** _ProfLogAddSection: the table after looking a name up. */
  function AddSection(t: seq<Section>, name: string): seq<Section> {
    if Find(t, name) == |t| < MAXSECTIONS then t + [Section(name, 0, EMPTY)] else t
  }

  /** _ProfLogSection on a table. */
  function Apply1(t: seq<Section>, c: Charge): seq<Section> {
    var t' := AddSection(t, c.name);
    var i := Find(t', c.name);
    if i < |t'| then t'[i := Bump(t'[i], c)] else t'
  }

  function Apply(t: seq<Section>, cs: seq<Charge>): seq<Section>
    decreases |cs|
  {
    if cs == [] then t else Apply(Apply1(t, cs[0]), cs[1..])
  }

  lemma {:induction false} ApplyAppend(t: seq<Section>, a: seq<Charge>, b: seq<Charge>)
    ensures Apply(t, a + b) == Apply(Apply(t, a), b)
    decreases |a|
  {
    if a == [] {
      assert a + b == b;
    } else {
      assert (a + b)[1..] == a[1..] + b;
      ApplyAppend(Apply1(t, a[0]), a[1..], b);
    }
  }

  const FRESH := [Section(UNKNOWN, 0, EMPTY)]

  lemma FreshTable()
    ensures AddSection([], UNKNOWN) == FRESH
  {}

  // ---- what a table should hold after `past` ----

  function Delta(c: Charge, k: nat): int { Get(c.to, k) - Get(c.from, k) }

  /** How often a name was charged. */
  function Count(cs: seq<Charge>, name: string): nat {
    if cs == [] then 0
    else Count(cs[..|cs| - 1], name) + (if cs[|cs| - 1].name == name then 1 else 0)
  }

  /** Counter `k` charged to a name, as an exact integer. */
  function Sum(cs: seq<Charge>, name: string, k: nat): int {
    if cs == [] then 0
    else Sum(cs[..|cs| - 1], name, k) + (if cs[|cs| - 1].name == name then Delta(cs[|cs| - 1], k) else 0)
  }

  /** The first 64 distinct names, "<unknown>" before all. */
  function Kept(cs: seq<Charge>): seq<string> {
    if cs == [] then [UNKNOWN]
    else
      var ks := Kept(cs[..|cs| - 1]);
      var n := cs[|cs| - 1].name;
      if n in ks || |ks| >= MAXSECTIONS then ks else ks + [n]
  }

  lemma KeptStep(cs: seq<Charge>)
    ensures cs == [] ==> Kept(cs) == ["<unknown>"]
    ensures cs != [] ==>
      var ks, name := Kept(cs[..|cs| - 1]), cs[|cs| - 1].name;
      Kept(cs) == if name in ks || |ks| >= 64 then ks else ks + [name]
  {}

  /** "<unknown>" first, then the other names as they come up, each once, until there are 64. */
  lemma {:induction false} KeptIs(cs: seq<Charge>)
    ensures 0 < |Kept(cs)| <= 64 && Kept(cs)[0] == "<unknown>"
    ensures forall i, j :: 0 <= i < j < |Kept(cs)| ==> Kept(cs)[i] != Kept(cs)[j]
    ensures |Kept(cs)| < 64 ==> forall i :: 0 <= i < |cs| ==> cs[i].name in Kept(cs)
    decreases |cs|
  {
    hide Kept;
    KeptStep(cs);
    if cs != [] {
      var init := cs[..|cs| - 1];
      KeptIs(init);
      assert forall i :: 0 <= i < |init| ==> cs[i] == init[i];
    }
  }

  /** Later charges only add names behind those already kept, and only names charged. */
  lemma {:induction false} KeptGrows(cs: seq<Charge>, k: nat)
    requires k <= |cs|
    ensures Kept(cs[..k]) <= Kept(cs)
    ensures forall name :: name in Kept(cs) ==> name in Kept(cs[..k]) || exists i :: k <= i < |cs| && cs[i].name == name
    decreases |cs|
  {
    hide Kept;
    if k == |cs| {
      assert cs[..k] == cs;
    } else {
      var n := |cs| - 1;
      KeptStep(cs);
      KeptGrows(cs[..n], k);
      assert cs[..n][..k] == cs[..k];
      forall name | name in Kept(cs) && name !in Kept(cs[..k])
        ensures exists i :: k <= i < |cs| && cs[i].name == name
      {
        if name in Kept(cs[..n]) {
          var i :| k <= i < n && cs[..n][i].name == name;
          assert cs[i].name == name;
        } else {
          assert cs[n].name == name;
        }
      }
    }
  }

  function Names(t: seq<Section>): (ns: seq<string>)
    ensures |ns| == |t|
  {
    seq(|t|, i requires 0 <= i < |t| => t[i].pName)
  }

  ghost predicate Accurate(s: Section, past: seq<Charge>) {
    s.nEntry == Count(past, s.pName) && forall k :: 0 <= k < 3 ==> Get(s.count, k) == Sum(past, s.pName, k) % W32
  }

  /** The table after `past`: it keeps the first 64 distinct names, each once, each with the
      number of its charges and their sums modulo 2^32. */
  ghost predicate TableOf(t: seq<Section>, past: seq<Charge>) {
    && Names(t) == Kept(past) && 0 < |t| <= MAXSECTIONS
    && (forall i, j :: 0 <= i < j < |t| ==> t[i].pName != t[j].pName)
    && (forall i :: 0 <= i < |t| ==> Accurate(t[i], past))
    && (|t| < MAXSECTIONS ==> forall i :: 0 <= i < |past| ==> past[i].name in Kept(past))
  }

  lemma {:induction false} NeverCharged(past: seq<Charge>, name: string)
    requires forall i :: 0 <= i < |past| ==> past[i].name != name
    ensures Count(past, name) == 0 && forall k :: 0 <= k < 3 ==> Sum(past, name, k) == 0
  {
    if past != [] {
      NeverCharged(past[..|past| - 1], name);
    }
  }

  lemma WrapAdd(s: int, d: int)
    ensures (s % W32 + d % W32) % W32 == (s + d) % W32
  {}

  lemma {:induction false} BumpAccurate(s: Section, past: seq<Charge>, c: Charge)
    requires Accurate(s, past) && s.pName == c.name
    ensures Accurate(Bump(s, c), past + [c]) && Bump(s, c).pName == s.pName
  {
    var now := past + [c];
    assert now[..|now| - 1] == past;
    forall k | 0 <= k < 3
      ensures Get(Bump(s, c).count, k) == Sum(now, s.pName, k) % W32
    {
      WrapAdd(Sum(past, s.pName, k), Delta(c, k));
    }
  }

  lemma {:induction false} OthersAccurate(s: Section, past: seq<Charge>, c: Charge)
    requires Accurate(s, past) && s.pName != c.name
    ensures Accurate(s, past + [c])
  {
    var now := past + [c];
    assert now[..|now| - 1] == past;
  }

  lemma {:induction false} InNames(t: seq<Section>, name: string)
    ensures name in Names(t) <==> Find(t, name) < |t|
  {
    var i := Find(t, name);
    if i < |t| {
      assert Names(t)[i] == name;
    }
  }

  /** A name that a table with room does not hold was never charged. */
  lemma {:induction false} NewName(t: seq<Section>, past: seq<Charge>, name: string)
    requires TableOf(t, past) && Find(t, name) == |t| < MAXSECTIONS
    ensures Accurate(Section(name, 0, EMPTY), past) && name !in Kept(past)
  {
    hide Kept, Find, Names, Count, Sum, Accurate;
    InNames(t, name);
    forall i | 0 <= i < |past| ensures past[i].name != name { assert past[i].name in Kept(past); }
    NeverCharged(past, name);
    NothingYet(past, name);
  }

  lemma {:induction false} NothingYet(past: seq<Charge>, name: string)
    requires Count(past, name) == 0 && forall k :: 0 <= k < 3 ==> Sum(past, name, k) == 0
    ensures Accurate(Section(name, 0, EMPTY), past)
  {
    hide Count, Sum;
  }

  /** Looking a name up keeps the table in step: a new section starts with nothing, and a name
      new to a table that is not full was never charged. */
  lemma {:induction false} AddTableOf(t: seq<Section>, past: seq<Charge>, name: string)
    requires TableOf(t, past)
    ensures var t1 := AddSection(t, name);
      && (forall i :: 0 <= i < |t1| ==> Accurate(t1[i], past))
      && (forall i, j :: 0 <= i < j < |t1| ==> t1[i].pName != t1[j].pName)
      && |t| <= |t1| <= MAXSECTIONS && t1[..|t|] == t
      && Names(t1) == (if name in Kept(past) || |Kept(past)| >= MAXSECTIONS then Kept(past) else Kept(past) + [name])
      && (Find(t1, name) == |t1| ==> |t1| == MAXSECTIONS)
  {
    hide Accurate, Kept, Find;
    InNames(t, name);
    if Find(t, name) == |t| < MAXSECTIONS {
      NewName(t, past, name);
      assert Names(t + [Section(name, 0, EMPTY)]) == Names(t) + [name];
      FindIs(t + [Section(name, 0, EMPTY)], name, |t|);
    }
  }

  /** One charge keeps the table in step with the history. */
  lemma {:induction false} Apply1TableOf(t: seq<Section>, past: seq<Charge>, c: Charge)
    requires TableOf(t, past)
    ensures TableOf(Apply1(t, c), past + [c])
  {
    hide AddSection, Bump, Accurate;
    var now, t1 := past + [c], AddSection(t, c.name);
    assert now[..|now| - 1] == past;
    AddTableOf(t, past, c.name);
    var n := Find(t1, c.name);
    var t2 := Apply1(t, c);
    if n < |t1| {
      BumpAccurate(t1[n], past, c);
    }
    assert Names(t2) == Names(t1);
    forall i | 0 <= i < |t2| ensures Accurate(t2[i], now) {
      if i != n {
        OthersAccurate(t1[i], past, c);
      }
    }
    InNames(t1, c.name);
    if |t2| < MAXSECTIONS {
      forall i | 0 <= i < |now| ensures now[i].name in Kept(now) {
        if i < |past| {
          assert past[i].name in Kept(past);
        }
      }
    }
  }

  /** Any sequence of charges does. */
  lemma {:induction false} ApplyTableOf(t: seq<Section>, past: seq<Charge>, cs: seq<Charge>)
    requires TableOf(t, past)
    ensures TableOf(Apply(t, cs), past + cs)
    decreases |cs|
  {
    hide TableOf, Apply1;
    if cs == [] {
      assert past + cs == past;
    } else {
      Apply1TableOf(t, past, cs[0]);
      ApplyTableOf(Apply1(t, cs[0]), past + [cs[0]], cs[1..]);
      assert past + [cs[0]] + cs[1..] == past + cs;
    }
  }

  lemma FreshTableOf()
    ensures TableOf(FRESH, [])
  {
    assert Names(FRESH) == [UNKNOWN];
  }

  lemma {:induction false} CountAppend(a: seq<Charge>, b: seq<Charge>, name: string)
    ensures Count(a + b, name) == Count(a, name) + Count(b, name)
    decreases |b|
  {
    if b == [] {
      assert a + b == a;
    } else {
      assert (a + b)[..|a + b| - 1] == a + b[..|b| - 1];
      CountAppend(a, b[..|b| - 1], name);
    }
  }

  lemma {:induction false} SumAppend(a: seq<Charge>, b: seq<Charge>, name: string, k: nat)
    ensures Sum(a + b, name, k) == Sum(a, name, k) + Sum(b, name, k)
    decreases |b|
  {
    if b == [] {
      assert a + b == a;
    } else {
      assert (a + b)[..|a + b| - 1] == a + b[..|b| - 1];
      SumAppend(a, b[..|b| - 1], name, k);
    }
  }
}
