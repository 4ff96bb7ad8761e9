/** The log analyser of proflog.c: a static section table and a single scan with a bounded stack. */
module ProfLog {
  import opened Words
  import opened ProfTable
  import opened ProfTree

  const NULL := -1

  class Profile {
    const section: array<Section>  // _ProfLog_Section
    var nSections: nat             // _ProfLog_nSections

    constructor ()
      ensures Valid() && fresh(section) && nSections == 0
    {
      section := new Section[MAXSECTIONS](_ => Section("", 0, EMPTY));
      nSections := 0;
    }

    ghost predicate Valid()
      reads this
    {
      section.Length == MAXSECTIONS && nSections <= MAXSECTIONS
    }

    ghost function Table(): seq<Section>
      requires Valid()
      reads this, section
    {
      section[..nSections]
    }

    /** _ProfLogAddSection: the index of the named section, or NULL when the table is full. */
    method AddSection(pSectionName: string) returns (iFound: int)
      requires Valid()
      modifies this, section
      ensures Valid() && Table() == ProfTable.AddSection(old(Table()), pSectionName)
      ensures var i := Find(Table(), pSectionName);
        if i < |Table()| then iFound == i else iFound == NULL
    {
      iFound := NULL;
      var iSection := 0;
      while iSection < nSections
        invariant 0 <= iSection <= nSections
        invariant forall j :: 0 <= j < iSection ==> section[j].pName != pSectionName
      {
        if section[iSection].pName == pSectionName {
          iFound := iSection;
          FindIs(Table(), pSectionName, iSection);
          return;
        }
        iSection := iSection + 1;
      }
      FindIs(Table(), pSectionName, nSections);
      if nSections < MAXSECTIONS {
        section[nSections] := Section(pSectionName, 0, EMPTY);
        nSections := nSections + 1;
        iFound := nSections - 1;
        assert Table() == old(Table()) + [Section(pSectionName, 0, EMPTY)];
        FindIs(Table(), pSectionName, nSections - 1);
      }
    }

    /** _ProfLogSection: the counters between two entries go to the named section, if it has one. */
    method LogSection(pSectionName: string, pBegin: Entry, pEnd: Entry, ghost adjacent: bool)
      requires Valid()
      modifies this, section
      ensures Valid()
      ensures Table() == Apply1(old(Table()), Charge(pSectionName, pBegin.counter, pEnd.counter, adjacent))
    {
      hide Find, ProfTable.AddSection, Sub32, Add32;
      var nCount := Counters(Sub32(pEnd.counter.cycle, pBegin.counter.cycle),
                             Sub32(pEnd.counter.counter0, pBegin.counter.counter0),
                             Sub32(pEnd.counter.counter1, pBegin.counter.counter1));
      var i := AddSection(pSectionName);
      if i != NULL {
        var s := section[i];
        section[i] := Section(s.pName, s.nEntry + 1,
                              Counters(Add32(s.count.cycle, nCount.cycle),
                                       Add32(s.count.counter0, nCount.counter0),
                                       Add32(s.count.counter1, nCount.counter1)));
      }
    }

    /** The charges at an entry that closes the section opened at `iSectionEntry`. */
    method CloseSection(log: seq<Entry>, iEntry: nat, iSectionEntry: nat, pLastEntry: int)
      requires Valid() && iSectionEntry < iEntry < |log|
      requires pLastEntry == (if IsBegin(log[iEntry - 1]) then iEntry - 1 else NULL)
      requires pLastEntry != NULL ==> pLastEntry == iSectionEntry
      requires IsBegin(log[iSectionEntry])
      modifies this, section
      ensures Valid()
      ensures Table() == Apply1(if iSectionEntry + 1 == iEntry then old(Table())
                                else Apply1(old(Table()), Unknown(log, iEntry)),
                                SectionCharge(log, iSectionEntry, iEntry))
    {
      hide Apply1, Find, ProfTable.AddSection;
      var pEntry := log[iEntry];
      if iSectionEntry == pLastEntry {
        LogSection(Name(pEntry), log[iSectionEntry], pEntry, true);
      } else {
        LogSection(UNKNOWN, log[iEntry - 1], pEntry, true);
        if pLastEntry != NULL {
          // "End without matching begin"
          assert false;
        }
        LogSection(Name(pEntry), log[iSectionEntry], pEntry, false);
      }
    }

    /** The loop of ProfLogPrint: up to entry `k`, where `open` is open, and what it reports there. */
    method ScanEntries(log: seq<Entry>)
      returns (errors: seq<Error>, pLastEntry: int, iStackPtr: nat, ghost k: nat, ghost open: seq<nat>)
      requires Valid()
      modifies this, section
      ensures Valid() && Table() == Apply(FRESH, Scan(log, 0, []).charges)
      ensures k <= |log| && OpenAfter(log, k) == Some(open) && (k < |log| ==> OpenAfter(log, k + 1).None?)
      ensures k == |log| <==> errors == []
      ensures k < |log| ==>
        errors == [if IsBegin(log[k]) then StackOverflow else if open == [] then StackUnderflow else UnbalancedPair]
      ensures k < |log| ==> HasFault(log, errors[0]) && !Scan(log, 0, []).ok
      ensures k == |log| ==> (Scan(log, 0, []).ok <==> open == [])
      ensures pLastEntry != NULL <==> k > 0 && IsBegin(log[k - 1])
      ensures pLastEntry != NULL ==> open != []
      ensures iStackPtr == if errors == [UnbalancedPair] then |open| - 1 else |open|
    {
      hide Apply1, Find, ProfTable.AddSection, Scan, Apply, EntryEqual, Standing, OpenAfter, HasFault;
      errors := [];
      nSections := 0;
      var unknown := AddSection(UNKNOWN);
      FreshTable();
      var Stack := new nat[MAXDEPTH];
      iStackPtr := 0;
      pLastEntry := NULL;
      ghost var end, ok := Apply(FRESH, Scan(log, 0, []).charges), Scan(log, 0, []).ok;
      StandingStart(log);
      ghost var stack: seq<nat> := [];
      open := [];
      var iEntry := 0;
      while iEntry < |log|
        invariant Valid() && errors == []
        invariant 0 <= iEntry <= |log| && 0 <= iStackPtr <= MAXDEPTH
        invariant stack == Stack[..iStackPtr]
        invariant pLastEntry == if iEntry > 0 && IsBegin(log[iEntry - 1]) then iEntry - 1 else NULL
        invariant pLastEntry != NULL ==> |stack| > 0 && stack[|stack| - 1] == pLastEntry
        invariant Standing(log, iEntry, stack, Table(), end, ok)
      {
        var pEntry := log[iEntry];
        open := stack;
        if IsBegin(pEntry) {
          StandingOpen(log, iEntry, stack, Table(), end, ok);
          if iEntry > 0 {
            LogSection(UNKNOWN, log[iEntry - 1], pEntry, true);
          }
          if iStackPtr >= MAXDEPTH {
            errors := errors + [StackOverflow];
            break;
          }
          Stack[iStackPtr] := iEntry;
          iStackPtr := iStackPtr + 1;
          pLastEntry := iEntry;
          stack := stack + [iEntry];
        } else {
          StandingClose(log, iEntry, stack, Table(), end, ok);
          if iStackPtr <= 0 {
            errors := errors + [StackUnderflow];
            break;
          }
          iStackPtr := iStackPtr - 1;
          var iSectionEntry := Stack[iStackPtr];
          assert iSectionEntry == stack[|stack| - 1];
          stack := stack[..|stack| - 1];
          if !EntryEqual(log[iSectionEntry], pEntry) {
            errors := errors + [UnbalancedPair];
            break;
          }
          CloseSection(log, iEntry, iSectionEntry, pLastEntry);
          pLastEntry := NULL;
        }
        iEntry := iEntry + 1;
      }
      if errors == [] {
        StandingEnd(log, stack, Table(), end, ok);
        open := stack;
      }
      k := iEntry;
    }

    /** ProfLogPrint, without its printing: the reported errors and the section table. The scan stops
        at entry `k`, the first fault or the end. It reports the fault, then that the entry before
        opened a section, then that something is left on the stack. */
    method ProfLogPrint(log: seq<Entry>) returns (errors: seq<Error>, ghost k: nat)
      requires Valid()
      modifies this, section
      ensures Valid()
      ensures errors == [] <==> Bracketed(log)
      ensures errors != [] ==> HasFault(log, errors[0])
      ensures k <= |log| && OpenAfter(log, k).Some? && (k < |log| ==> OpenAfter(log, k + 1).None?)
      ensures var stack := OpenAfter(log, k).value;
        var fault: seq<Error> := if k == |log| then [] else if IsBegin(log[k]) then [StackOverflow]
                                 else if stack == [] then [StackUnderflow] else [UnbalancedPair];
        var left := if fault == [UnbalancedPair] then |stack| - 1 else |stack|;
        errors == fault + (if k > 0 && IsBegin(log[k - 1]) then [BeginWithoutEnd] else [])
                        + (if left > 0 then [StackNotEmpty] else [])
      ensures Table() == Apply(FRESH, Scan(log, 0, []).charges)
    {
      hide Scan, Apply, Bracketed, OpenAfter, HasFault, IsBegin;
      var pLastEntry, iStackPtr;
      ghost var open;
      errors, pLastEntry, iStackPtr, k, open := ScanEntries(log);
      AcceptedIffBracketed(log);
      if k == |log| {
        OpenEnd(log, open);
      }
      if pLastEntry != NULL {
        errors := errors + [BeginWithoutEnd];
      }
      if iStackPtr != 0 {
        errors := errors + [StackNotEmpty];
      }
    }

    /** What the scan of a bracketed log reports: no error, the first 64 names, and for each kept
        section its completed instances and inclusive counters modulo 2^32. Every pair of
        neighbouring entries is charged exactly once, in order; in the table, the "<unknown>" line
        and the leaf sections share out the span of the log. */
    method Summarise(log: seq<Entry>, ghost f: Forest) returns (errors: seq<Error>)
      requires Valid() && LogOf(log, f)
      modifies this, section
      ensures Valid() && errors == [] && TableIs(Table(), f)
      ensures Table() == Apply(FRESH, Scan(log, 0, []).charges)
      ensures log != [] ==>
        && Gaps(Scan(log, 0, []).charges) == LogGaps(log, 1)
        && forall k :: 0 <= k < 3 ==>
             GapTime(LogGaps(log, 1), k) == Get(log[|log| - 1].counter, k) - Get(log[0].counter, k)
      ensures log != [] ==> Table() != [] && Table()[0].pName == UNKNOWN
      ensures log != [] ==> forall k :: 0 <= k < 3 ==>
        (Get(Table()[0].count, k) + LeafTime(f, k)) % W32
        == (Get(log[|log| - 1].counter, k) - Get(log[0].counter, k) + Inclusive(f, UNKNOWN, k)) % W32
    {
      hide TableIs, TreeCharges, Scan, LeafTime, Inclusive, Get, Apply, Gaps, LogGaps, GapTime;
      ghost var k;
      errors, k := ProfLogPrint(log);
      assert Bracketed(log);
      ScanOfTree(log, f);
      TableOfTree(f);
      if log != [] {
        GapsOfLog(log);
        SpanIsShared(log, f, Table(), 0);
        SpanIsShared(log, f, Table(), 1);
        SpanIsShared(log, f, Table(), 2);
      }
    }
  }
}
