/**
 Sleeping on the live heap root. `loop_run` hands `timer_subtract` a pointer into the heap
 (src/loop.c:353), so the borrow of src/loop.c:258-262 is written into the stored deadline.
 */
module LiveRoot {
  import opened Timespecs
  import opened HeapSpec

  // The stored deadline after a run of sleeps, one clock reading each.
  function AfterSleeps(a: Timespec, clocks: seq<Timespec>): Timespec {
    if clocks == [] then a else Borrow(AfterSleeps(a, clocks[..|clocks| - 1]), clocks[|clocks| - 1])
  }

  ghost predicate NormalClocks(clocks: seq<Timespec>) {
    forall c <- clocks :: c.Normal()
  }

  // At most one second is ever borrowed, exactly when some reading had more nanoseconds.
  lemma {:induction false} BorrowsAtMostOnce(a: Timespec, clocks: seq<Timespec>)
    requires a.Normal() && NormalClocks(clocks)
    ensures AfterSleeps(a, clocks) ==
      if exists c <- clocks :: a.nsec < c.nsec then Timespec(a.sec - 1, a.nsec + NS_PER_SEC) else a
    ensures AfterSleeps(a, clocks).Total() == a.Total()
  {
    if clocks != [] {
      var front, c := clocks[..|clocks| - 1], clocks[|clocks| - 1];
      assert c in clocks && forall d <- front :: d in clocks;
      BorrowsAtMostOnce(a, front);
      assert forall d <- clocks :: d in front || d == c;
    }
  }

  // A borrowed deadline fires at most its own nanoseconds early, so by less than a second.
  lemma FiresEarlyIff(a: Timespec, clocks: seq<Timespec>, now: Timespec)
    requires a.Normal() && NormalClocks(clocks) && now.Normal()
    ensures now.Gt(AfterSleeps(a, clocks)) && !now.Gt(a) <==>
      (exists c <- clocks :: a.nsec < c.nsec) && now.sec == a.sec && now.nsec <= a.nsec
    ensures now.Gt(AfterSleeps(a, clocks)) ==> a.Total() - now.Total() <= a.nsec
  {
    BorrowsAtMostOnce(a, clocks);
  }

  // A timer due at 5.9 s, slept for at 3.95 s, fires at 5.2 s.
  lemma BorrowedDeadlineFiresEarly()
    ensures var due, slept, now := Timespec(5, 900_000_000), Timespec(3, 950_000_000), Timespec(5, 200_000_000);
      !now.Gt(due) && now.Gt(Borrow(due, slept)) && due.Total() - now.Total() == 700_000_000
  {
  }

  // Borrowing at the root never disturbs heap order.
  lemma BorrowKeepsOrder(s: seq<Element>, now: Timespec)
    requires Ordered(s) && s != []
    ensures Ordered(s[0 := Element(s[0].id, Borrow(s[0].timer, now))])
  {
    var t := s[0 := Element(s[0].id, Borrow(s[0].timer, now))];
    forall j: nat | 0 < j < |t| ensures Edge(t, j) {
      assert Edge(s, j);
    }
  }

  /* ---------- Field order against the order of instants ---------- */

  // a, one second borrowed, sorts before b although b is the earlier instant.
  predicate Hides(a: Timespec, b: Timespec) {
    b.sec == a.sec + 1 && b.nsec < a.nsec - NS_PER_SEC
  }

  // The only way the heap's order and the order of instants differ.
  lemma HidesIff(a: Timespec, b: Timespec)
    requires a.AtMostOneBorrow() && b.nsec >= 0
    ensures Le(a, b) && b.Total() < a.Total() <==> Hides(a, b)
    ensures a.Normal() ==> !Hides(a, b)
  {
  }

  // Exactly when a sleep at `now` puts the deadline a before an earlier deadline b: it borrows, and
  // b lies in the same second, before a.
  lemma BorrowHidesIff(a: Timespec, now: Timespec, b: Timespec)
    requires a.Normal() && now.Normal() && b.Normal()
    ensures Le(Borrow(a, now), b) && b.Total() < a.Total() <==> a.nsec < now.nsec && b.sec == a.sec && b.nsec < a.nsec
    ensures Le(a, b) ==> !Hides(Borrow(a, now), b)
  {
  }

  // A deadline added after the borrow can be earlier than the root and still sort below it.
  lemma BorrowedRootHidesEarlierDeadline()
    ensures var root := Borrow(Timespec(5, 900_000_000), Timespec(3, 950_000_000));
            var added := Timespec(5, 100_000_000);
            Le(root, added) && Hides(root, added) && added.Total() < root.Total()
  {
  }
}
