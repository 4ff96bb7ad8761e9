/** A profile log as a call tree: the scan of proflog.c against a fold over the tree. */
module ProfTree {
  import opened Words
  import opened ProfTable

  const MAXDEPTH := 16

  /** What the scan reports. */
  datatype Error =
    | StackOverflow
    | StackUnderflow
    | UnbalancedPair
    | BeginWithoutEnd
    | StackNotEmpty

  /** A log entry; PROF_ENTER and PROF_LEAVE put one character before the section name. */
  datatype EntryT = EntryT(pName: string, counter: Counters)
  type Entry = e: EntryT | |e.pName| > 0 witness EntryT("!", EMPTY)

  predicate IsBegin(e: Entry) { e.pName[0] == '!' }

  function Name(e: Entry): string { e.pName[1..] }

  /** _ProfLogEntryEqual */
  predicate EntryEqual(a: Entry, b: Entry) { a.pName[1..] == b.pName[1..] }

  // ---- the scan ----

  datatype ScanResult = ScanResult(charges: seq<Charge>, ok: bool)

  function Unknown(log: seq<Entry>, i: nat): Charge
    requires 0 < i < |log|
  {
    Charge(UNKNOWN, log[i - 1].counter, log[i].counter, true)
  }

  /** The charge of the section that entry `b` opens and entry `e` closes. */
  function SectionCharge(log: seq<Entry>, b: nat, e: nat): Charge
    requires b < |log| && e < |log|
  {
    Charge(Name(log[e]), log[b].counter, log[e].counter, b + 1 == e)
  }

  ghost predicate StackOk(stack: seq<nat>, i: nat) {
    |stack| <= MAXDEPTH && forall k :: 0 <= k < |stack| ==> stack[k] < i
  }

  /** The rest of a scan from entry `i`, with the indices of the open sections. */
  function Scan(log: seq<Entry>, i: nat, stack: seq<nat>): ScanResult
    requires i <= |log| && StackOk(stack, i)
    decreases |log| - i
  {
    if i == |log| then ScanResult([], stack == [])
    else if IsBegin(log[i]) then
      var c := if i > 0 then [Unknown(log, i)] else [];
      if |stack| >= MAXDEPTH then ScanResult(c, false)
      else var r := Scan(log, i + 1, stack + [i]); ScanResult(c + r.charges, r.ok)
    else if stack == [] then ScanResult([], false)
    else
      var top := stack[|stack| - 1];
      if !EntryEqual(log[top], log[i]) then ScanResult([], false)
      else
        var c := if top + 1 == i then [SectionCharge(log, top, i)]
                 else [Unknown(log, i), SectionCharge(log, top, i)];
        var r := Scan(log, i + 1, stack[..|stack| - 1]);
        ScanResult(c + r.charges, r.ok)
  }

  // ---- call trees ----

  /** A first section with the sections inside it, then its later siblings. `mark` is the character
      before the name in the closing entry. */
  datatype Forest =
    | Leaf
    | Node(name: string, enter: Counters, kids: Forest, leave: Counters, mark: char, rest: Forest)

  ghost predicate Marked(f: Forest) {
    f.Node? ==> f.mark != '!' && Marked(f.kids) && Marked(f.rest)
  }

  function Enter(f: Forest): Entry
    requires f.Node?
  {
    EntryT("!" + f.name, f.enter)
  }

  function Leave(f: Forest): Entry
    requires f.Node?
  {
    EntryT([f.mark] + f.name, f.leave)
  }

  /** The log a call tree leaves. */
  function Flatten(f: Forest): seq<Entry> {
    if f.Leaf? then [] else [Enter(f)] + Flatten(f.kids) + [Leave(f)] + Flatten(f.rest)
  }

  function Depth(f: Forest): nat {
    if f.Leaf? then 0
    else if Depth(f.kids) + 1 > Depth(f.rest) then Depth(f.kids) + 1 else Depth(f.rest)
  }

  /** Counters of the last entry of a non-empty forest's log. */
  function LastCounters(f: Forest): Counters
    requires f.Node?
  {
    if f.rest.Leaf? then f.leave else LastCounters(f.rest)
  }

  /** The charge before the first section of a forest, and those at its end. */
  function Opening(f: Forest, prev: Option<Counters>): seq<Charge>
    requires f.Node?
  {
    match prev case None => [] case Some(p) => [Charge(UNKNOWN, p, f.enter, true)]
  }

  function Closing(f: Forest): seq<Charge>
    requires f.Node?
  {
    if f.kids.Leaf? then [Charge(f.name, f.enter, f.leave, true)]
    else [Charge(UNKNOWN, LastCounters(f.kids), f.leave, true), Charge(f.name, f.enter, f.leave, false)]
  }

  /** What a tree is charged, after an entry with counters `prev` or at the start of the log. */
  function TreeCharges(f: Forest, prev: Option<Counters>): seq<Charge> {
    if f.Leaf? then []
    else Opening(f, prev) + (TreeCharges(f.kids, Some(f.enter)) + (Closing(f) + TreeCharges(f.rest, Some(f.leave))))
  }

  function Prev(log: seq<Entry>, i: nat): Option<Counters>
    requires i <= |log|
  {
    if i == 0 then None else Some(log[i - 1].counter)
  }

  lemma {:induction false} FlattenLast(f: Forest)
    requires f.Node?
    ensures |Flatten(f)| >= 2 && Flatten(f)[|Flatten(f)| - 1].counter == LastCounters(f)
  {
    if f.rest.Node? {
      FlattenLast(f.rest);
      assert Flatten(f)[|Flatten(f)| - 1] == Flatten(f.rest)[|Flatten(f.rest)| - 1];
    }
  }

  /** A tree's log occurs in `log` at `i`. */
  ghost predicate Occurs(log: seq<Entry>, i: nat, f: Forest) {
    i + |Flatten(f)| <= |log| && log[i..i + |Flatten(f)|] == Flatten(f)
  }

  /** Two brackets, what lies between them and what follows, as parts of a longer sequence. */
  lemma Pieces<T>(log: seq<T>, i: nat, x: T, k: seq<T>, y: T, r: seq<T>)
    requires i + 2 + |k| + |r| <= |log|
    ensures log[i..i + 2 + |k| + |r|] == [x] + k + [y] + r
      <==> log[i] == x && log[i + 1..i + 1 + |k|] == k && log[i + 1 + |k|] == y
           && log[i + 2 + |k|..i + 2 + |k| + |r|] == r
  {
    var s, t := log[i..i + 2 + |k| + |r|], [x] + k + [y] + r;
    assert forall p :: 0 <= p < |s| ==> s[p] == log[i + p];
    assert s[0] == log[i] && s[1..1 + |k|] == log[i + 1..i + 1 + |k|];
    assert s[1 + |k|] == log[i + 1 + |k|] && s[2 + |k|..] == log[i + 2 + |k|..i + 2 + |k| + |r|];
    assert t[0] == x && t[1..1 + |k|] == k && t[1 + |k|] == y && t[2 + |k|..] == r;
    assert s == [s[0]] + s[1..1 + |k|] + [s[1 + |k|]] + s[2 + |k|..];
  }

  lemma FlattenNode(f: Forest)
    requires f.Node?
    ensures Flatten(f) == [Enter(f)] + Flatten(f.kids) + [Leave(f)] + Flatten(f.rest)
  {}

  lemma OccursSplit(log: seq<Entry>, i: nat, f: Forest)
    requires f.Node? && Occurs(log, i, f)
    ensures var j := i + 1 + |Flatten(f.kids)|;
      && j + 1 + |Flatten(f.rest)| == i + |Flatten(f)| <= |log|
      && log[i] == Enter(f) && Occurs(log, i + 1, f.kids) && log[j] == Leave(f) && Occurs(log, j + 1, f.rest)
  {
    hide Flatten, Enter, Leave;
    FlattenNode(f);
    Pieces(log, i, Enter(f), Flatten(f.kids), Leave(f), Flatten(f.rest));
  }

  lemma OccursJoin(log: seq<Entry>, i: nat, f: Forest)
    requires f.Node? && i + 1 + |Flatten(f.kids)| < |log|
    requires var j := i + 1 + |Flatten(f.kids)|;
      log[i] == Enter(f) && Occurs(log, i + 1, f.kids) && log[j] == Leave(f) && Occurs(log, j + 1, f.rest)
    ensures Occurs(log, i, f) && |Flatten(f)| == 2 + |Flatten(f.kids)| + |Flatten(f.rest)|
  {
    hide Flatten, Enter, Leave;
    FlattenNode(f);
    Pieces(log, i, Enter(f), Flatten(f.kids), Leave(f), Flatten(f.rest));
  }

  /** The opening entry of a section. */
  lemma ScanOpen(log: seq<Entry>, i: nat, stack: seq<nat>, f: Forest)
    requires i < |log| && StackOk(stack, i) && |stack| < MAXDEPTH && f.Node? && log[i] == Enter(f)
    ensures var r := Scan(log, i + 1, stack + [i]);
      Scan(log, i, stack) == ScanResult(Opening(f, Prev(log, i)) + r.charges, r.ok)
  {}

  /** A closing entry that matches the innermost open section. */
  lemma {:induction false} ScanPop(log: seq<Entry>, j: nat, stack: seq<nat>, i: nat)
    requires i < j < |log| && StackOk(stack + [i], j) && StackOk(stack, j + 1)
    requires !IsBegin(log[j]) && EntryEqual(log[i], log[j])
    ensures var r := Scan(log, j + 1, stack);
      var c := if i + 1 == j then [SectionCharge(log, i, j)] else [Unknown(log, j), SectionCharge(log, i, j)];
      Scan(log, j, stack + [i]) == ScanResult(c + r.charges, r.ok)
  {
    hide SectionCharge, Unknown, EntryEqual;
    var s := stack + [i];
    assert s[..|s| - 1] == stack && s[|s| - 1] == i;
  }

  /** The closing entry of a section whose opening entry is on top of the stack. */
  lemma ScanClose(log: seq<Entry>, i: nat, j: nat, stack: seq<nat>, f: Forest)
    requires f.Node? && j == i + 1 + |Flatten(f.kids)| < |log| && StackOk(stack, i) && |stack| < MAXDEPTH
    requires f.mark != '!' && log[i] == Enter(f) && log[j] == Leave(f) && Occurs(log, i + 1, f.kids)
    ensures var r := Scan(log, j + 1, stack);
      Scan(log, j, stack + [i]) == ScanResult(Closing(f) + r.charges, r.ok)
  {
    hide Flatten, Scan;
    ScanPop(log, j, stack, i);
    FlattenLeaf(f.kids);
    assert Name(log[j]) == f.name && Name(log[i]) == f.name;
    if f.kids.Node? {
      FlattenLast(f.kids);
      assert log[j - 1] == log[i + 1..j][j - i - 2];
    }
  }

  lemma Regroup4(u: seq<Charge>, k: seq<Charge>, c: seq<Charge>, r: seq<Charge>, t: seq<Charge>)
    ensures u + (k + (c + (r + t))) == u + (k + (c + r)) + t
  {}

  /** Scanning a tree's log charges exactly what the tree is charged and leaves the stack alone. */
  lemma {:induction false} ScanTree(log: seq<Entry>, i: nat, stack: seq<nat>, f: Forest)
    requires i <= |log| && StackOk(stack, i) && Marked(f) && Occurs(log, i, f)
    requires |stack| + Depth(f) <= MAXDEPTH
    ensures var r := Scan(log, i + |Flatten(f)|, stack);
      Scan(log, i, stack) == ScanResult(TreeCharges(f, Prev(log, i)) + r.charges, r.ok)
    decreases f
  {
    hide Flatten, Occurs, Scan, TreeCharges, Closing, Opening, EntryEqual;
    if f.Node? {
      OccursSplit(log, i, f);
      var j := i + 1 + |Flatten(f.kids)|;
      ScanTree(log, i + 1, stack + [i], f.kids);
      ScanTree(log, j + 1, stack, f.rest);
      ScanOpen(log, i, stack, f);
      ScanClose(log, i, j, stack, f);
      TreeParts(f, Prev(log, i));
      var k, r := TreeCharges(f.kids, Some(f.enter)), TreeCharges(f.rest, Some(f.leave));
      Regroup4(Opening(f, Prev(log, i)), k, Closing(f), r, Scan(log, i + |Flatten(f)|, stack).charges);
    } else {
      FlattenLeaf(f);
      TreeChargesLeaf(Prev(log, i));
      assert [] + Scan(log, i, stack).charges == Scan(log, i, stack).charges;
    }
  }

  lemma OccursLeaf(log: seq<Entry>, i: nat)
    requires i <= |log|
    ensures |Flatten(Leaf)| == 0 && Occurs(log, i, Leaf)
  {}

  lemma FlattenLeaf(f: Forest)
    ensures f.Leaf? <==> Flatten(f) == []
  {}

  lemma TreeChargesLeaf(prev: Option<Counters>)
    ensures TreeCharges(Leaf, prev) == []
  {}

  // ---- from an accepted log back to a tree ----

  /** What acceptance of a remainder says about its first entry. */
  lemma ScanOk(log: seq<Entry>, i: nat, stack: seq<nat>)
    requires i <= |log| && StackOk(stack, i) && Scan(log, i, stack).ok
    ensures i == |log| ==> stack == []
    ensures i < |log| && IsBegin(log[i]) ==> |stack| < MAXDEPTH && Scan(log, i + 1, stack + [i]).ok
    ensures i < |log| && !IsBegin(log[i]) ==>
      && stack != [] && EntryEqual(log[stack[|stack| - 1]], log[i])
      && Scan(log, i + 1, stack[..|stack| - 1]).ok
  {}

  /** The first tree of an accepted remainder, up to the end of the log or the entry that closes
      the innermost open section. */
  lemma {:induction false} Rebuild(log: seq<Entry>, i: nat, stack: seq<nat>) returns (f: Forest, j: nat)
    requires i <= |log| && StackOk(stack, i) && Scan(log, i, stack).ok
    ensures Marked(f) && |stack| + Depth(f) <= MAXDEPTH
    ensures j == i + |Flatten(f)| <= |log| && Occurs(log, i, f)
    ensures StackOk(stack, j) && Scan(log, j, stack).ok
    ensures if stack == [] then j == |log|
            else j < |log| && !IsBegin(log[j]) && EntryEqual(log[stack[|stack| - 1]], log[j])
    decreases |log| - i
  {
    hide Flatten, Occurs, Scan;
    ScanOk(log, i, stack);
    if i == |log| || !IsBegin(log[i]) {
      f, j := Leaf, i;
      OccursLeaf(log, i);
    } else {
      var kids, k := Rebuild(log, i + 1, stack + [i]);
      ScanOk(log, k, stack + [i]);
      assert (stack + [i])[..|stack|] == stack;
      var rest;
      rest, j := Rebuild(log, k + 1, stack);
      f := Node(Name(log[i]), log[i].counter, kids, log[k].counter, log[k].pName[0], rest);
      assert log[i] == Enter(f) && log[k] == Leave(f);
      OccursJoin(log, i, f);
    }
  }

  /** A log is bracketed when a tree of at most 16 levels leaves it. */
  ghost predicate Bracketed(log: seq<Entry>) {
    exists f :: LogOf(log, f)
  }

  ghost predicate LogOf(log: seq<Entry>, f: Forest) {
    Flatten(f) == log && Marked(f) && Depth(f) <= MAXDEPTH
  }

  lemma BracketedIs(log: seq<Entry>)
    ensures Bracketed(log) <==> exists f :: Flatten(f) == log && Marked(f) && Depth(f) <= 16
  {
    hide Flatten, Marked, Depth;
    if f :| Flatten(f) == log && Marked(f) && Depth(f) <= 16 {
      assert LogOf(log, f);
      assert Bracketed(log);
    }
    if Bracketed(log) {
      var f :| LogOf(log, f);
      assert Flatten(f) == log && Marked(f) && Depth(f) <= 16;
    }
  }

  /** The log of a tree is accepted and charged as the tree is. */
  lemma ScanOfTree(log: seq<Entry>, f: Forest)
    requires LogOf(log, f)
    ensures Scan(log, 0, []) == ScanResult(TreeCharges(f, None), true)
  {
    assert log[0..|log|] == log;
    ScanTree(log, 0, [], f);
    assert Scan(log, |log|, []).ok;
    assert TreeCharges(f, None) + [] == TreeCharges(f, None);
  }

  /** The scan reports no error if and only if the log is bracketed within 16 levels. */
  lemma AcceptedIffBracketed(log: seq<Entry>)
    ensures Scan(log, 0, []).ok <==> Bracketed(log)
  {
    if Scan(log, 0, []).ok {
      var f, j := Rebuild(log, 0, []);
      assert log[0..|log|] == log;
      assert LogOf(log, f);
    }
    if Bracketed(log) {
      var f :| LogOf(log, f);
      ScanOfTree(log, f);
    }
  }

  // ---- the first fault of a log ----

  /** The entries that are open after the first `k`, as long as every closing entry closed the
      innermost open one and no more than 16 were open. */
  function OpenAfter(log: seq<Entry>, k: nat): (r: Option<seq<nat>>)
    requires k <= |log|
    ensures r.Some? ==> |r.value| <= MAXDEPTH && forall i :: 0 <= i < |r.value| ==> r.value[i] < k
  {
    if k == 0 then Some([])
    else
      match OpenAfter(log, k - 1)
      case None => None
      case Some(stack) =>
        if IsBegin(log[k - 1]) then (if |stack| < MAXDEPTH then Some(stack + [k - 1]) else None)
        else if stack != [] && EntryEqual(log[stack[|stack| - 1]], log[k - 1]) then Some(stack[..|stack| - 1])
        else None
  }

  /** What is wrong at entry `k` of a log, or at its end. */
  ghost predicate Fault(log: seq<Entry>, k: nat, e: Error) {
    && k <= |log| && OpenAfter(log, k).Some?
    && var stack := OpenAfter(log, k).value;
    match e
    case StackOverflow => k < |log| && IsBegin(log[k]) && |stack| == MAXDEPTH
    case StackUnderflow => k < |log| && !IsBegin(log[k]) && stack == []
    case UnbalancedPair =>
      k < |log| && !IsBegin(log[k]) && stack != [] && !EntryEqual(log[stack[|stack| - 1]], log[k])
    case BeginWithoutEnd => k == |log| > 0 && IsBegin(log[k - 1])
    case StackNotEmpty => k == |log| > 0 && !IsBegin(log[k - 1]) && stack != []
  }

  ghost predicate HasFault(log: seq<Entry>, e: Error) {
    exists k: nat :: Fault(log, k, e)
  }

  lemma {:induction false} OpenNoMore(log: seq<Entry>, k: nat, n: nat)
    requires k <= n <= |log| && OpenAfter(log, k).None?
    ensures OpenAfter(log, n).None?
    decreases n - k
  {
    if k < n {
      OpenNoMore(log, k, n - 1);
    }
  }

  lemma {:induction false} FaultStops(log: seq<Entry>, k: nat, e: Error)
    requires Fault(log, k, e)
    ensures k < |log| ==> OpenAfter(log, k + 1).None?
    ensures k == |log| ==> OpenAfter(log, k) != Some([])
  {
    hide EntryEqual, IsBegin;
    if k == |log| && OpenAfter(log, k) == Some([]) {
      ClosedEnd(log);
      assert false;
    }
  }

  /** With everything closed, the last entry closes. */
  lemma {:induction false} ClosedEnd(log: seq<Entry>)
    requires OpenAfter(log, |log|) == Some([])
    ensures log != [] ==> !IsBegin(log[|log| - 1])
  {}

  lemma {:induction false} SameFault(log: seq<Entry>, k: nat, e: Error, e': Error)
    requires Fault(log, k, e) && Fault(log, k, e')
    ensures e == e'
  {
    hide EntryEqual, IsBegin, OpenAfter;
  }

  /** A log has at most one first fault, and with one it does not end with everything closed. */
  lemma {:induction false} FaultUnique(log: seq<Entry>, k: nat, e: Error, k': nat, e': Error)
    requires Fault(log, k, e)
    ensures Fault(log, k', e') ==> k == k' && e == e'
    ensures OpenAfter(log, |log|) != Some([])
  {
    hide OpenAfter, Fault;
    FaultAt(log, k, e);
    FaultStops(log, k, e);
    if k < |log| {
      OpenNoMore(log, k + 1, |log|);
    }
    if Fault(log, k', e') {
      FaultAt(log, k', e');
      FaultStops(log, k', e');
      if k < k' {
        OpenNoMore(log, k + 1, k');
      } else if k' < k {
        OpenNoMore(log, k' + 1, k);
      } else {
        SameFault(log, k, e, e');
      }
    }
  }

  lemma {:induction false} FaultAt(log: seq<Entry>, k: nat, e: Error)
    requires Fault(log, k, e)
    ensures k <= |log| && OpenAfter(log, k).Some?
  {}

  /** One more entry: it is a fault, or opens or closes a section. */
  lemma {:induction false} OpenStep(log: seq<Entry>, k: nat, stack: seq<nat>)
    requires k < |log| && OpenAfter(log, k) == Some(stack)
    ensures IsBegin(log[k]) && |stack| >= MAXDEPTH ==> HasFault(log, StackOverflow) && OpenAfter(log, k + 1).None?
    ensures !IsBegin(log[k]) && stack == [] ==> HasFault(log, StackUnderflow) && OpenAfter(log, k + 1).None?
    ensures !IsBegin(log[k]) && stack != [] && !EntryEqual(log[stack[|stack| - 1]], log[k]) ==>
      HasFault(log, UnbalancedPair) && OpenAfter(log, k + 1).None?
    ensures IsBegin(log[k]) && |stack| < MAXDEPTH ==> OpenAfter(log, k + 1) == Some(stack + [k])
    ensures !IsBegin(log[k]) && stack != [] && EntryEqual(log[stack[|stack| - 1]], log[k]) ==>
      OpenAfter(log, k + 1) == Some(stack[..|stack| - 1])
  {
    assert Fault(log, k, StackOverflow) ==> HasFault(log, StackOverflow);
    assert Fault(log, k, StackUnderflow) ==> HasFault(log, StackUnderflow);
    assert Fault(log, k, UnbalancedPair) ==> HasFault(log, UnbalancedPair);
  }

  lemma NothingOpen(log: seq<Entry>)
    ensures OpenAfter(log, 0) == Some([])
  {}

  lemma {:induction false} OpenEnd(log: seq<Entry>, stack: seq<nat>)
    requires OpenAfter(log, |log|) == Some(stack)
    ensures log == [] ==> stack == []
    ensures log != [] && IsBegin(log[|log| - 1]) ==> HasFault(log, BeginWithoutEnd)
    ensures stack != [] && !IsBegin(log[|log| - 1]) ==> HasFault(log, StackNotEmpty)
  {
    assert Fault(log, |log|, BeginWithoutEnd) ==> HasFault(log, BeginWithoutEnd);
    assert Fault(log, |log|, StackNotEmpty) ==> HasFault(log, StackNotEmpty);
  }

  // ---- what a scan charges up to its first fault ----

  /** The charges of entry `i` when `stack` is open: the time since the entry before to "<unknown>",
      unless the two are a leaf section, and a closed section's own time to it. */
  function EntryCharges(log: seq<Entry>, i: nat, stack: seq<nat>): seq<Charge>
    requires i < |log| && forall j :: 0 <= j < |stack| ==> stack[j] < i
  {
    if IsBegin(log[i]) then (if i > 0 then [Unknown(log, i)] else [])
    else if stack == [] then []
    else
      var top := stack[|stack| - 1];
      (if top + 1 == i then [] else [Unknown(log, i)]) + [SectionCharge(log, top, i)]
  }

  /** The charges of the first `k` entries, in order. */
  function ChargesBefore(log: seq<Entry>, k: nat): seq<Charge>
    requires k <= |log| && OpenAfter(log, k).Some?
  {
    if k == 0 then [] else ChargesBefore(log, k - 1) + EntryCharges(log, k - 1, OpenAfter(log, k - 1).value)
  }

  lemma {:induction false} ScanBegin(log: seq<Entry>, k: nat, stack: seq<nat>)
    requires k < |log| && StackOk(stack, k) && IsBegin(log[k])
    ensures Scan(log, k, stack).charges
         == EntryCharges(log, k, stack) + if |stack| < MAXDEPTH then Scan(log, k + 1, stack + [k]).charges else []
  {
    hide Unknown;
  }

  lemma {:induction false} ScanLeave(log: seq<Entry>, k: nat, stack: seq<nat>)
    requires k < |log| && StackOk(stack, k) && !IsBegin(log[k])
    ensures Scan(log, k, stack).charges
         == if stack == [] || !EntryEqual(log[stack[|stack| - 1]], log[k]) then []
            else EntryCharges(log, k, stack) + Scan(log, k + 1, stack[..|stack| - 1]).charges
  {
    hide Unknown, SectionCharge, EntryEqual;
    if stack != [] {
      var s := SectionCharge(log, stack[|stack| - 1], k);
      assert [] + [s] == [s] && [Unknown(log, k)] + [s] == [Unknown(log, k), s];
    }
  }

  lemma {:induction false} ScanEntry(log: seq<Entry>, k: nat)
    requires k < |log| && OpenAfter(log, k).Some?
    ensures var stack := OpenAfter(log, k).value;
      match OpenAfter(log, k + 1)
      case Some(rest) =>
        Scan(log, k, stack).charges == EntryCharges(log, k, stack) + Scan(log, k + 1, rest).charges
      case None => Scan(log, k, stack).charges == if IsBegin(log[k]) && k > 0 then [Unknown(log, k)] else []
  {
    hide SectionCharge, Unknown, Scan, OpenAfter, EntryEqual, HasFault;
    var stack := OpenAfter(log, k).value;
    OpenStep(log, k, stack);
    if IsBegin(log[k]) {
      ScanBegin(log, k, stack);
    } else {
      ScanLeave(log, k, stack);
    }
  }

  /** A rejected log too is charged for every entry before its first fault, and at an overflow for the
      time up to it. */
  lemma {:induction false} ChargedUpTo(log: seq<Entry>, n: nat, k: nat)
    requires n <= k <= |log| && OpenAfter(log, k).Some? && OpenAfter(log, n).Some?
    requires k < |log| ==> OpenAfter(log, k + 1).None?
    ensures Scan(log, 0, []).charges == ChargesBefore(log, n) + Scan(log, n, OpenAfter(log, n).value).charges
    ensures n == k ==> Scan(log, 0, []).charges
                       == ChargesBefore(log, k)
                          + (if k < |log| && IsBegin(log[k]) && k > 0 then [Unknown(log, k)] else [])
  {
    hide Scan, EntryCharges, Unknown;
    if n == 0 {
      assert [] + Scan(log, 0, []).charges == Scan(log, 0, []).charges;
    } else {
      OpenBefore(log, n - 1);
      ChargedUpTo(log, n - 1, k);
      ScanEntry(log, n - 1);
      var was := OpenAfter(log, n - 1).value;
      Assoc(ChargesBefore(log, n - 1), EntryCharges(log, n - 1, was), Scan(log, n, OpenAfter(log, n).value).charges);
    }
    if n == k {
      if k < |log| {
        ScanEntry(log, k);
      } else {
        ScanEnd(log, OpenAfter(log, k).value);
      }
    }
  }

  lemma OpenBefore(log: seq<Entry>, n: nat)
    requires n < |log| && OpenAfter(log, n + 1).Some?
    ensures OpenAfter(log, n).Some?
  {}

  lemma Assoc(a: seq<Charge>, b: seq<Charge>, c: seq<Charge>)
    ensures a + (b + c) == (a + b) + c
  {}

  // ---- what the charges of a tree add up to ----

  /** Completed instances of a section. */
  function Instances(f: Forest, name: string): nat {
    if f.Leaf? then 0
    else (if f.name == name then 1 else 0) + Instances(f.kids, name) + Instances(f.rest, name)
  }

  /** Counter `k` spent inside a section, its subsections included. */
  function Inclusive(f: Forest, name: string, k: nat): int {
    if f.Leaf? then 0
    else (if f.name == name then Get(f.leave, k) - Get(f.enter, k) else 0)
         + Inclusive(f.kids, name, k) + Inclusive(f.rest, name, k)
  }

  /** Counter `k` spent in sections without subsections. */
  function LeafTime(f: Forest, k: nat): int {
    if f.Leaf? then 0
    else (if f.kids.Leaf? then Get(f.leave, k) - Get(f.enter, k) else LeafTime(f.kids, k)) + LeafTime(f.rest, k)
  }

  /** A section alone: two entries, one instance, and its own time. */
  lemma OneSection(name: string, a: Counters, b: Counters, mark: char, k: nat)
    ensures var f := Node(name, a, Leaf, b, mark, Leaf);
      && Flatten(f) == [EntryT("!" + name, a), EntryT([mark] + name, b)]
      && Depth(f) == 1 && Instances(f, name) == 1 && Leaves(f) == 1
      && Inclusive(f, name, k) == Get(b, k) - Get(a, k) == LeafTime(f, k)
  {
    var f := Node(name, a, Leaf, b, mark, Leaf);
    assert Flatten(f) == [Enter(f)] + [] + [Leave(f)] + [];
  }

  /** Time and instances of a tree are those of its first section, of what is in it and of the rest. */
  lemma TreeSums(f: Forest, name: string, k: nat)
    requires f.Node?
    ensures Instances(f, name) == Instances(f.kids, name) + Instances(f.rest, name) + if f.name == name then 1 else 0
    ensures Inclusive(f, name, k)
         == Inclusive(f.kids, name, k) + Inclusive(f.rest, name, k)
            + if f.name == name then Get(f.leave, k) - Get(f.enter, k) else 0
    ensures f.kids.Node? ==> LeafTime(f, k) == LeafTime(f.kids, k) + LeafTime(f.rest, k)
    ensures f.kids.Node? ==> Leaves(f) == Leaves(f.kids) + Leaves(f.rest)
    ensures f.kids.Node? && f.rest.Leaf? ==> Depth(f) == Depth(f.kids) + 1
  {}

  function OneCharge(c: Charge, name: string): nat { if c.name == name then 1 else 0 }

  lemma CountOne(c: Charge, name: string, k: nat)
    ensures Count([c], name) == OneCharge(c, name)
    ensures Sum([c], name, k) == if c.name == name then Delta(c, k) else 0
  {
    assert [c][..0] == [];
  }

  lemma CountTwo(c: Charge, d: Charge, name: string, k: nat)
    ensures Count([c, d], name) == OneCharge(c, name) + OneCharge(d, name)
    ensures Sum([c, d], name, k) == Sum([c], name, k) + Sum([d], name, k)
  {
    assert [c, d] == [c] + [d];
    CountAppend([c], [d], name);
    SumAppend([c], [d], name, k);
    CountOne(c, name, k);
    CountOne(d, name, k);
  }

  /** Sections without subsections, whose entries are charged as one pair. */
  function Leaves(f: Forest): nat {
    if f.Leaf? then 0 else (if f.kids.Leaf? then 1 else Leaves(f.kids)) + Leaves(f.rest)
  }

  /** From the entry before a tree, or its first, to its last. */
  function Span(f: Forest, prev: Option<Counters>, k: nat): int {
    if f.Leaf? then 0 else Get(LastCounters(f), k) - Get(if prev.Some? then prev.value else f.enter, k)
  }

  /** Neighbouring entries that are not a leaf section: those are what "<unknown>" is charged with. */
  function Between(f: Forest, prev: Option<Counters>): int {
    |Flatten(f)| - (if f.Node? && prev.None? then 1 else 0) - Leaves(f)
  }

  /** A section is charged once per completed instance, with its inclusive duration; "<unknown>" is
      charged besides with every pair of neighbours that is not a leaf section, and the time of those
      and of the leaf sections makes up the whole span. */
  lemma {:induction false} TreeTotals(f: Forest, prev: Option<Counters>, name: string, k: nat)
    ensures Count(TreeCharges(f, prev), name)
         == Instances(f, name) + (if name == UNKNOWN then Between(f, prev) else 0)
    ensures Sum(TreeCharges(f, prev), name, k)
         == Inclusive(f, name, k) + (if name == UNKNOWN then Span(f, prev, k) - LeafTime(f, k) else 0)
    decreases f
  {
    if f.Node? {
      TreeTotals(f.kids, Some(f.enter), name, k);
      TreeTotals(f.rest, Some(f.leave), name, k);
      TreeSplit(f, prev, name, k);
      OpeningTotals(f, prev, name, k);
      ClosingTotals(f, name, k);
    }
  }

  lemma TreeParts(f: Forest, prev: Option<Counters>)
    requires f.Node?
    ensures TreeCharges(f, prev) == Opening(f, prev)
      + (TreeCharges(f.kids, Some(f.enter)) + (Closing(f) + TreeCharges(f.rest, Some(f.leave))))
  {}

  lemma OpeningTotals(f: Forest, prev: Option<Counters>, name: string, k: nat)
    requires f.Node?
    ensures Count(Opening(f, prev), name) == if prev.Some? && name == UNKNOWN then 1 else 0
    ensures Sum(Opening(f, prev), name, k)
         == if prev.Some? && name == UNKNOWN then Get(f.enter, k) - Get(prev.value, k) else 0
  {
    if prev.Some? {
      CountOne(Opening(f, prev)[0], name, k);
    }
  }

  lemma ClosingTotals(f: Forest, name: string, k: nat)
    requires f.Node?
    ensures Count(Closing(f), name)
         == (if f.kids.Node? && name == UNKNOWN then 1 else 0) + (if f.name == name then 1 else 0)
    ensures Sum(Closing(f), name, k)
         == (if f.kids.Node? && name == UNKNOWN then Get(f.leave, k) - Get(LastCounters(f.kids), k) else 0)
            + (if f.name == name then Get(f.leave, k) - Get(f.enter, k) else 0)
  {
    hide Count, Sum;
    var c := Closing(f);
    if f.kids.Leaf? {
      CountOne(c[0], name, k);
    } else {
      CountTwo(c[0], c[1], name, k);
      CountOne(c[0], name, k);
      CountOne(c[1], name, k);
    }
  }

  lemma TreeSplit(f: Forest, prev: Option<Counters>, name: string, k: nat)
    requires f.Node?
    ensures var inner, rest := TreeCharges(f.kids, Some(f.enter)), TreeCharges(f.rest, Some(f.leave));
      && Count(TreeCharges(f, prev), name)
         == Count(Opening(f, prev), name) + Count(inner, name) + Count(Closing(f), name) + Count(rest, name)
      && Sum(TreeCharges(f, prev), name, k)
         == Sum(Opening(f, prev), name, k) + Sum(inner, name, k) + Sum(Closing(f), name, k) + Sum(rest, name, k)
  {
    hide TreeCharges, Opening, Closing, Count, Sum;
    var o, i := Opening(f, prev), TreeCharges(f.kids, Some(f.enter));
    var c, r := Closing(f), TreeCharges(f.rest, Some(f.leave));
    TreeParts(f, prev);
    CountAppend(o, i + (c + r), name);
    CountAppend(i, c + r, name);
    CountAppend(c, r, name);
    SumAppend(o, i + (c + r), name, k);
    SumAppend(i, c + r, name, k);
    SumAppend(c, r, name, k);
  }

  // ---- conservation over a log ----

  /** The pairs of neighbouring entries that were charged, in order. */
  function Gaps(cs: seq<Charge>): seq<(Counters, Counters)> {
    if cs == [] then [] else (if cs[0].adjacent then [(cs[0].from, cs[0].to)] else []) + Gaps(cs[1..])
  }

  /** The pairs of neighbouring entries of a log from entry `i` on. */
  function LogGaps(log: seq<Entry>, i: nat): seq<(Counters, Counters)>
    requires 0 < i <= |log|
    decreases |log| - i
  {
    if i == |log| then [] else [(log[i - 1].counter, log[i].counter)] + LogGaps(log, i + 1)
  }

  function GapTime(gs: seq<(Counters, Counters)>, k: nat): int {
    if gs == [] then 0 else Get(gs[0].1, k) - Get(gs[0].0, k) + GapTime(gs[1..], k)
  }

  lemma GapsFirst(c: Charge, cs: seq<Charge>)
    ensures Gaps([c] + cs) == (if c.adjacent then [(c.from, c.to)] else []) + Gaps(cs)
  {
    assert ([c] + cs)[1..] == cs;
  }

  /** What the scan of one entry adds to the pairs charged: this entry and the one before it. */
  lemma {:induction false} GapStep(log: seq<Entry>, i: nat, stack: seq<nat>)
    requires 0 < i < |log| && StackOk(stack, i) && Scan(log, i, stack).ok
    ensures !IsBegin(log[i]) ==> stack != []
    ensures var rest := if IsBegin(log[i]) then stack + [i] else stack[..|stack| - 1];
      && StackOk(rest, i + 1) && Scan(log, i + 1, rest).ok
      && Gaps(Scan(log, i, stack).charges)
         == [(log[i - 1].counter, log[i].counter)] + Gaps(Scan(log, i + 1, rest).charges)
  {
    hide Gaps;
    ScanOk(log, i, stack);
    if IsBegin(log[i]) {
      GapsFirst(Unknown(log, i), Scan(log, i + 1, stack + [i]).charges);
    } else {
      var top, rest := stack[|stack| - 1], Scan(log, i + 1, stack[..|stack| - 1]).charges;
      var s := SectionCharge(log, top, i);
      GapsFirst(s, rest);
      if top + 1 != i {
        assert [Unknown(log, i), s] + rest == [Unknown(log, i)] + ([s] + rest);
        GapsFirst(Unknown(log, i), [s] + rest);
        assert [] + Gaps(rest) == Gaps(rest);
      }
    }
  }

  /** An accepted scan charges every pair of neighbours exactly once, in order. */
  lemma {:induction false} EachGapOnce(log: seq<Entry>, i: nat, stack: seq<nat>)
    requires 0 < i <= |log| && StackOk(stack, i) && Scan(log, i, stack).ok
    ensures Gaps(Scan(log, i, stack).charges) == LogGaps(log, i)
    decreases |log| - i
  {
    hide Gaps, Scan, StackOk;
    if i == |log| {
      ScanEnd(log, stack);
      NoGaps();
    } else {
      GapStep(log, i, stack);
      EachGapOnce(log, i + 1, if IsBegin(log[i]) then stack + [i] else stack[..|stack| - 1]);
    }
  }

  lemma ScanEnd(log: seq<Entry>, stack: seq<nat>)
    requires StackOk(stack, |log|)
    ensures Scan(log, |log|, stack).charges == []
  {}

  lemma NoGaps()
    ensures Gaps([]) == []
  {}

  lemma {:induction false} Telescope(log: seq<Entry>, i: nat, k: nat)
    requires 0 < i <= |log|
    ensures GapTime(LogGaps(log, i), k) == Get(log[|log| - 1].counter, k) - Get(log[i - 1].counter, k)
    decreases |log| - i
  {
    if i < |log| {
      Telescope(log, i + 1, k);
      assert LogGaps(log, i)[1..] == LogGaps(log, i + 1);
    }
  }

  /** The first entry of an accepted log opens a section and is charged nothing. */
  lemma ScanFirst(log: seq<Entry>)
    requires log != [] && Scan(log, 0, []).ok
    ensures Scan(log, 1, [0]).ok && Scan(log, 0, []).charges == Scan(log, 1, [0]).charges
  {
    assert [] + [0] == [0];
  }

  /** Conservation: on an accepted log the pairs charged are all pairs of neighbours, each once, in
      order, and so add up to the whole span. */
  lemma {:induction false} GapsOfLog(log: seq<Entry>)
    requires log != [] && Scan(log, 0, []).ok
    ensures Gaps(Scan(log, 0, []).charges) == LogGaps(log, 1)
    ensures forall k :: 0 <= k < 3 ==>
      GapTime(LogGaps(log, 1), k) == Get(log[|log| - 1].counter, k) - Get(log[0].counter, k)
  {
    hide Scan, Gaps, LogGaps, GapTime;
    ScanFirst(log);
    EachGapOnce(log, 1, [0]);
    forall k | 0 <= k < 3
      ensures GapTime(LogGaps(log, 1), k) == Get(log[|log| - 1].counter, k) - Get(log[0].counter, k)
    {
      Telescope(log, 1, k);
    }
  }

  /** By name: what "<unknown>" is charged and what is spent in leaf sections come to the span of the
      log, plus the time of sections that are themselves called "<unknown>". */
  lemma UnknownPlusLeaves(log: seq<Entry>, f: Forest, k: nat)
    requires LogOf(log, f) && log != []
    ensures Sum(Scan(log, 0, []).charges, UNKNOWN, k) + LeafTime(f, k)
         == Get(log[|log| - 1].counter, k) - Get(log[0].counter, k) + Inclusive(f, UNKNOWN, k)
  {
    hide Sum, TreeCharges, Scan, LeafTime, Inclusive;
    ScanOfTree(log, f);
    TreeTotals(f, None, UNKNOWN, k);
    FlattenLast(f);
  }

  /** A scan that stands at entry `i` with table `t` will end with table `end` and verdict `ok`. */
  ghost predicate Pending(log: seq<Entry>, i: nat, stack: seq<nat>, t: seq<Section>, end: seq<Section>, ok: bool) {
    && i <= |log| && StackOk(stack, i)
    && Scan(log, i, stack).ok == ok && Apply(t, Scan(log, i, stack).charges) == end
  }

  lemma PendingStart(log: seq<Entry>)
    ensures Pending(log, 0, [], FRESH, Apply(FRESH, Scan(log, 0, []).charges), Scan(log, 0, []).ok)
  {}

  lemma PendingEnd(log: seq<Entry>, stack: seq<nat>, t: seq<Section>, end: seq<Section>, ok: bool)
    requires Pending(log, |log|, stack, t, end, ok)
    ensures (ok <==> |stack| == 0) && end == t
  {}

  /** An opening entry. */
  lemma PendingOpen(log: seq<Entry>, i: nat, stack: seq<nat>, t: seq<Section>, end: seq<Section>, ok: bool)
    requires i < |log| && IsBegin(log[i]) && Pending(log, i, stack, t, end, ok)
    ensures var t' := if i > 0 then Apply1(t, Unknown(log, i)) else t;
      if |stack| >= MAXDEPTH then !ok && end == t' else Pending(log, i + 1, stack + [i], t', end, ok)
  {
    hide Apply1;
    var c := if i > 0 then [Unknown(log, i)] else [];
    ApplyOne(t, c);
    if |stack| < MAXDEPTH {
      ApplyAppend(t, c, Scan(log, i + 1, stack + [i]).charges);
    }
  }

  /** A closing entry. */
  lemma PendingClose(log: seq<Entry>, i: nat, stack: seq<nat>, t: seq<Section>, end: seq<Section>, ok: bool)
    requires i < |log| && !IsBegin(log[i]) && Pending(log, i, stack, t, end, ok)
    ensures stack == [] ==> !ok && end == t
    ensures stack != [] ==> stack[|stack| - 1] < i
    ensures stack != [] && !EntryEqual(log[stack[|stack| - 1]], log[i]) ==> !ok && end == t
    ensures stack != [] && EntryEqual(log[stack[|stack| - 1]], log[i]) ==>
      var top := stack[|stack| - 1];
      var t' := if top + 1 == i then t else Apply1(t, Unknown(log, i));
      Pending(log, i + 1, stack[..|stack| - 1], Apply1(t', SectionCharge(log, top, i)), end, ok)
  {
    hide Apply1;
    if stack != [] && EntryEqual(log[stack[|stack| - 1]], log[i]) {
      var top := stack[|stack| - 1];
      var s := SectionCharge(log, top, i);
      var rest := Scan(log, i + 1, stack[..|stack| - 1]).charges;
      if top + 1 == i {
        ApplyOne(t, [s]);
        ApplyAppend(t, [s], rest);
      } else {
        ApplyTwo(t, Unknown(log, i), s);
        ApplyAppend(t, [Unknown(log, i), s], rest);
      }
    }
  }

  /** Every index on the stack is an earlier opening entry. */
  ghost predicate Opened(log: seq<Entry>, stack: seq<nat>, i: nat) {
    i <= |log| && forall k :: 0 <= k < |stack| ==> stack[k] < i && IsBegin(log[stack[k]])
  }

  lemma OpenedNone(log: seq<Entry>)
    ensures Opened(log, [], 0)
  {}

  lemma OpenedPush(log: seq<Entry>, stack: seq<nat>, i: nat)
    requires i < |log| && Opened(log, stack, i) && IsBegin(log[i])
    ensures Opened(log, stack + [i], i + 1)
  {}

  lemma OpenedPop(log: seq<Entry>, stack: seq<nat>, i: nat)
    requires i < |log| && stack != [] && Opened(log, stack, i)
    ensures stack[|stack| - 1] < i && IsBegin(log[stack[|stack| - 1]])
    ensures Opened(log, stack[..|stack| - 1], i + 1)
  {}

  /** A scan that stands at entry `i`: what is open, and what is still to come. */
  ghost predicate Standing(log: seq<Entry>, i: nat, stack: seq<nat>, t: seq<Section>, end: seq<Section>, ok: bool) {
    Opened(log, stack, i) && OpenAfter(log, i) == Some(stack) && Pending(log, i, stack, t, end, ok)
  }

  lemma StandingStart(log: seq<Entry>)
    ensures Standing(log, 0, [], FRESH, Apply(FRESH, Scan(log, 0, []).charges), Scan(log, 0, []).ok)
  {
    PendingStart(log);
    OpenedNone(log);
    NothingOpen(log);
  }

  lemma StandingOpen(log: seq<Entry>, i: nat, stack: seq<nat>, t: seq<Section>, end: seq<Section>, ok: bool)
    requires i < |log| && IsBegin(log[i]) && Standing(log, i, stack, t, end, ok)
    ensures OpenAfter(log, i) == Some(stack)
    ensures var t' := if i > 0 then Apply1(t, Unknown(log, i)) else t;
      if |stack| >= MAXDEPTH then !ok && end == t' && OpenAfter(log, i + 1).None? && HasFault(log, StackOverflow)
      else Standing(log, i + 1, stack + [i], t', end, ok)
  {
    hide Opened, OpenAfter, Pending, HasFault, Apply1, EntryEqual;
    PendingOpen(log, i, stack, t, end, ok);
    OpenStep(log, i, stack);
    OpenedPush(log, stack, i);
  }

  lemma StandingClose(log: seq<Entry>, i: nat, stack: seq<nat>, t: seq<Section>, end: seq<Section>, ok: bool)
    requires i < |log| && !IsBegin(log[i]) && Standing(log, i, stack, t, end, ok)
    ensures OpenAfter(log, i) == Some(stack)
    ensures stack == [] ==> !ok && end == t && OpenAfter(log, i + 1).None? && HasFault(log, StackUnderflow)
    ensures stack != [] ==>
      var top := stack[|stack| - 1];
      && top < i && IsBegin(log[top])
      && if !EntryEqual(log[top], log[i])
         then !ok && end == t && OpenAfter(log, i + 1).None? && HasFault(log, UnbalancedPair)
         else
           var t' := if top + 1 == i then t else Apply1(t, Unknown(log, i));
           Standing(log, i + 1, stack[..|stack| - 1], Apply1(t', SectionCharge(log, top, i)), end, ok)
  {
    hide Opened, OpenAfter, Pending, HasFault, Apply1, EntryEqual;
    PendingClose(log, i, stack, t, end, ok);
    OpenStep(log, i, stack);
    if stack != [] {
      OpenedPop(log, stack, i);
    }
  }

  lemma StandingEnd(log: seq<Entry>, stack: seq<nat>, t: seq<Section>, end: seq<Section>, ok: bool)
    requires Standing(log, |log|, stack, t, end, ok)
    ensures OpenAfter(log, |log|) == Some(stack) && (ok <==> stack == []) && end == t
  {
    PendingEnd(log, stack, t, end, ok);
  }

  lemma ApplyOne(t: seq<Section>, c: seq<Charge>)
    requires |c| <= 1
    ensures Apply(t, c) == if c == [] then t else Apply1(t, c[0])
  {
    hide Apply1;
  }

  lemma ApplyTwo(t: seq<Section>, c: Charge, d: Charge)
    ensures Apply(t, [c, d]) == Apply1(Apply1(t, c), d)
  {
    hide Apply1;
    assert [c, d][1..] == [d];
    ApplyOne(Apply1(t, c), [d]);
  }

  /** The table of a tree: a fold over the calls, not over the log. */
  ghost predicate TableIs(t: seq<Section>, f: Forest) {
    && Names(t) == Kept(TreeCharges(f, None))
    && (forall i, j :: 0 <= i < j < |t| ==> t[i].pName != t[j].pName)
    && forall i :: 0 <= i < |t| ==> SectionIs(t[i], f)
  }

  ghost predicate SectionIs(s: Section, f: Forest) {
    var unknown := s.pName == UNKNOWN;
    && s.nEntry == Instances(f, s.pName) + (if unknown then Between(f, None) else 0)
    && forall k :: 0 <= k < 3 ==>
         Get(s.count, k) == (Inclusive(f, s.pName, k) + if unknown then Span(f, None, k) - LeafTime(f, k) else 0) % W32
  }

  lemma AccurateIs(s: Section, f: Forest)
    requires Accurate(s, TreeCharges(f, None))
    ensures SectionIs(s, f)
  {
    hide TreeCharges, Get, Count, Sum, Instances, Inclusive, Between, Span, LeafTime;
    forall k | 0 <= k < 3
      ensures Get(s.count, k)
           == (Inclusive(f, s.pName, k) + if s.pName == UNKNOWN then Span(f, None, k) - LeafTime(f, k) else 0) % W32
    {
      TreeTotals(f, None, s.pName, k);
    }
    TreeTotals(f, None, s.pName, 0);
  }

  lemma TableOfTree(f: Forest)
    ensures TableIs(Apply(FRESH, TreeCharges(f, None)), f)
  {
    hide Apply, TreeCharges, Kept, Names, Accurate, SectionIs;
    var cs := TreeCharges(f, None);
    var t := Apply(FRESH, cs);
    FreshTableOf();
    ApplyTableOf(FRESH, [], cs);
    assert [] + cs == cs;
    forall i | 0 <= i < |t| ensures SectionIs(t[i], f) {
      AccurateIs(t[i], f);
    }
  }

  lemma {:induction false} KeptFirst(cs: seq<Charge>)
    ensures |Kept(cs)| > 0 && Kept(cs)[0] == UNKNOWN
  {
    if cs != [] {
      KeptFirst(cs[..|cs| - 1]);
    }
  }

  /** In the table of any log but the empty one: the "<unknown>" line and the leaf sections share out
      the span between the first and the last entry modulo 2^32, if and only if no time is spent in
      sections of that very name; the line is too large by just that time. */
  lemma SpanIsShared(log: seq<Entry>, f: Forest, t: seq<Section>, k: nat)
    requires LogOf(log, f) && log != [] && TableIs(t, f) && k < 3
    ensures var span := Get(log[|log| - 1].counter, k) - Get(log[0].counter, k);
      && |t| > 0 && t[0].pName == UNKNOWN
      && (Get(t[0].count, k) + LeafTime(f, k)) % W32 == (span + Inclusive(f, UNKNOWN, k)) % W32
      && ((Get(t[0].count, k) + LeafTime(f, k)) % W32 == span % W32 <==> Inclusive(f, UNKNOWN, k) % W32 == 0)
  {
    hide TreeCharges, Kept, Get, LeafTime, Inclusive, LastCounters, Between, Instances;
    KeptFirst(TreeCharges(f, None));
    assert Names(t)[0] == t[0].pName;
    assert SectionIs(t[0], f);
    FlattenLast(f);
    assert log[0] == Enter(f);
    WrapLeft(Inclusive(f, UNKNOWN, k) + Span(f, None, k) - LeafTime(f, k), LeafTime(f, k));
    WrapZero(Span(f, None, k), Inclusive(f, UNKNOWN, k));
  }

  lemma WrapZero(a: int, b: int)
    ensures (a + b) % W32 == a % W32 <==> b % W32 == 0
  {}

  ghost predicate NoUnknown(f: Forest) {
    f.Node? ==> f.name != UNKNOWN && NoUnknown(f.kids) && NoUnknown(f.rest)
  }

  /** Without a section of that name there is no such time. */
  lemma {:induction false} UnknownTime(f: Forest, k: nat)
    ensures NoUnknown(f) ==> Inclusive(f, UNKNOWN, k) == 0
  {
    if f.Node? {
      UnknownTime(f.kids, k);
      UnknownTime(f.rest, k);
    }
  }

  /** A log of one section of that name is accepted, and its "<unknown>" line and leaf time together
      are not its span. */
  lemma {:induction false} UnknownSection(k: nat)
    requires k < 3
    ensures var f := Node(UNKNOWN, EMPTY, Leaf, Counters(1, 1, 1), '~', Leaf);
      var log := [Enter(f), Leave(f)];
      var t := Apply(FRESH, Scan(log, 0, []).charges);
      && LogOf(log, f) && Scan(log, 0, []).ok && |t| > 0 && t[0].pName == UNKNOWN
      && (Get(t[0].count, k) + LeafTime(f, k)) % W32 != (Get(log[1].counter, k) - Get(log[0].counter, k)) % W32
  {
    hide Apply, Scan, TreeCharges;
    var f := Node(UNKNOWN, EMPTY, Leaf, Counters(1, 1, 1), '~', Leaf);
    var log := [Enter(f), Leave(f)];
    assert Flatten(f) == log;
    ScanOfTree(log, f);
    TableOfTree(f);
    SpanIsShared(log, f, Apply(FRESH, Scan(log, 0, []).charges), k);
  }

  lemma WrapLeft(a: int, b: int)
    ensures (a % W32 + b) % W32 == (a + b) % W32
  {}
}
