/**
 What becomes of texts on the disk, those found at the start included: opening
 a file empties it, so everything hangs on which names are opened again.
 */
module LogSurvival {
  import opened LogRotation

  /** The dates on which some file holds a text. */
  function TextDates(files: Files): set<Date> {
    set name | name in files && files[name] != [] :: name.date
  }

  function DatesOf(names: set<Name>): set<Date> {
    set name | name in names :: name.date
  }

  // ------------------------------------------------------- going on with a day

  /** A text in a file that the writer has yet to open if it writes on for long enough that day. */
  predicate LiesAhead(s: Log, name: Name) {
    name in s.disk && s.disk[name] != [] && (name.date == s.date ==> name.sn > s.sn)
  }

  ghost predicate ClearAhead(s: Log, day: Date) {
    forall name :: name in s.disk && name.date == day ==> !LiesAhead(s, name)
  }

  function Repeat(e: Entry, n: nat): (r: seq<Entry>)
    ensures |r| == n && forall i :: 0 <= i < n ==> r[i] == e
  {
    if n == 0 then [] else Repeat(e, n - 1) + [e]
  }

  lemma {:induction false} WriteAllSnoc(start: Log, es: seq<Entry>, e: Entry, limits: Limits)
    ensures WriteAll(start, es + [e], limits) == Write(WriteAll(start, es, limits), e, limits)
  {
    assert (es + [e])[..|es|] == es;
  }

  lemma {:induction false} RepeatSnoc(s: Log, e: Entry, n: nat, limits: Limits)
    ensures WriteAll(s, Repeat(e, n + 1), limits) == Write(WriteAll(s, Repeat(e, n), limits), e, limits)
  {
    hide Write, WriteAll;
    WriteAllSnoc(s, Repeat(e, n), e, limits);
  }

  lemma {:induction false} RepeatFront(s: Log, e: Entry, n: nat, limits: Limits)
    ensures WriteAll(s, Repeat(e, n + 1), limits) == WriteAll(Write(s, e, limits), Repeat(e, n), limits)
  {
    hide Write;
    RepeatSnoc(s, e, n, limits);
    if n == 0 {
    } else {
      RepeatFront(s, e, n - 1, limits);
      RepeatSnoc(Write(s, e, limits), e, n - 1, limits);
    }
  }

  lemma {:induction false} WriteOnlyLoses(s: Log, e: Entry, limits: Limits)
    ensures Write(s, e, limits).lost >= NewDay(s, e.today).lost >= s.lost
  {
  }

  lemma {:induction false} WritesOnlyLose(s: Log, es: seq<Entry>, limits: Limits)
    ensures WriteAll(s, es, limits).lost >= s.lost
  {
    hide Write;
    if es == [] {
    } else {
      var n := |es| - 1;
      WritesOnlyLose(s, es[..n], limits);
      WriteOnlyLoses(WriteAll(s, es[..n], limits), es[n], limits);
    }
  }

  lemma {:induction false} WriteIsClear(s: Log, e: Entry, limits: Limits)
    requires ClearAhead(s, e.today)
    ensures Write(s, e, limits).lost == s.lost && ClearAhead(Write(s, e, limits), e.today)
  {
    var s0 := NewDay(s, e.today);
    assert s0.lost == s.lost && ClearAhead(s0, e.today) by {
      assert forall name :: name in s.disk && name.date == e.today && e.today != s.date ==> !LiesAhead(s, name);
    }
    hide NewDay;
    RestIsClear(s0, e, limits);
  }

  lemma {:induction false} RestIsClear(s: Log, e: Entry, limits: Limits)
    requires ClearAhead(s, e.today) && s.date == e.today
    ensures var s' := Rotate(Append(s, e.txt), limits);
            s'.lost == s.lost && ClearAhead(s'.(size := s'.size + |e.txt|, line := s'.line + 1), e.today)
  {
    assert forall name :: name in s.disk && name.date == e.today && name.sn > s.sn ==> !LiesAhead(s, name);
  }

  lemma {:induction false} GoingOnIsClear(s: Log, e: Entry, n: nat, limits: Limits)
    requires ClearAhead(s, e.today)
    ensures var s' := WriteAll(s, Repeat(e, n), limits);
            s'.lost == s.lost && ClearAhead(s', e.today)
  {
    hide Write, ClearAhead;
    if n == 0 {
    } else {
      GoingOnIsClear(s, e, n - 1, limits);
      RepeatSnoc(s, e, n - 1, limits);
      WriteIsClear(WriteAll(s, Repeat(e, n - 1), limits), e, limits);
    }
  }

  /** One more entry destroys the text ahead or comes nearer to it. */
  lemma {:induction false} WriteNears(s: Log, e: Entry, limits: Limits, name: Name)
    requires LiesAhead(s, name) && name.date == e.today
    ensures var s' := Write(s, e, limits);
            s'.lost > s.lost ||
            (LiesAhead(s', name) && s'.date == e.today &&
             (s.date == e.today ==>
                s'.sn > s.sn || (s'.sn == s.sn && s.line < limits.maxLine && s'.line == s.line + 1)))
  {
  }

  /** Writing on for long enough destroys the text ahead. */
  lemma {:induction false} GoingOnLoses(s: Log, e: Entry, limits: Limits, name: Name) returns (n: nat)
    requires LiesAhead(s, name) && name.date == e.today
    ensures WriteAll(s, Repeat(e, n), limits).lost > s.lost
    decreases s.date != e.today, if s.date == e.today then name.sn - s.sn else 0, limits.maxLine - s.line
  {
    hide Write, WriteAll;
    var s' := Write(s, e, limits);
    WriteNears(s, e, limits, name);
    if s'.lost > s.lost {
      n := 1;
      RepeatFront(s, e, 0, limits);
      WritesOnlyLose(s', Repeat(e, 0), limits);
    } else {
      var rest := GoingOnLoses(s', e, limits, name);
      n := rest + 1;
      RepeatFront(s, e, rest, limits);
      WriteOnlyLoses(s, e, limits);
    }
  }

  /** In any state, a day can be written on for ever without loss exactly when no text lies ahead on it. */
  lemma {:induction false} GoingOnIsSafeIff(s: Log, e: Entry, limits: Limits)
    ensures (forall n: nat :: WriteAll(s, Repeat(e, n), limits).lost == s.lost) <==> ClearAhead(s, e.today)
  {
    hide WriteAll, Repeat;
    if ClearAhead(s, e.today) {
      forall n: nat
        ensures WriteAll(s, Repeat(e, n), limits).lost == s.lost
      {
        GoingOnIsClear(s, e, n, limits);
      }
    } else {
      var name :| name in s.disk && name.date == e.today && LiesAhead(s, name);
      var n := GoingOnLoses(s, e, limits, name);
      assert WriteAll(s, Repeat(e, n), limits).lost != s.lost;
    }
  }

  // ------------------------------------------------------- dates that hold texts

  /** The dates that hold texts are those found holding some and those written on since. */
  ghost predicate DiskMatches(s: Log, left: set<Date>, today: Date, es: seq<Entry>) {
    && Current(s) in s.disk && s.date == LastDate(today, es)
    && (forall d :: d in TextDates(s.disk) <==> Seen(left, es, d))
  }

  lemma {:induction false} OtherDaysStay(s: Log, e: Entry, limits: Limits)
    ensures var s' := Write(s, e, limits);
            forall name: Name :: name.date != e.today ==>
              (name in s'.disk <==> name in s.disk) && (name in s.disk ==> s'.disk[name] == s.disk[name])
  {
  }

  lemma {:induction false} WrittenDayHolds(s: Log, e: Entry, limits: Limits)
    ensures var s', name := Write(s, e, limits), Current(NewDay(s, e.today));
            name.date == e.today && name in s'.disk && s'.disk[name] != []
  {
  }

  lemma {:induction false} WriteMatches(s: Log, left: set<Date>, today: Date, es: seq<Entry>, e: Entry, limits: Limits)
    requires DiskMatches(s, left, today, es)
    ensures DiskMatches(Write(s, e, limits), left, today, es + [e])
  {
    hide Seen, Write;
    WriteMovesTo(s, e, limits);
    OtherDaysStay(s, e, limits);
    WrittenDayHolds(s, e, limits);
    SeenSnoc(left, es, e);
    TextDatesGrow(s.disk, Write(s, e, limits).disk, Current(NewDay(s, e.today)));
    assert (es + [e])[|es|] == e;
  }

  lemma {:induction false} TextDatesGrow(a: Files, b: Files, name: Name)
    requires name in b && b[name] != []
    requires forall n: Name :: n.date != name.date ==> (n in b <==> n in a) && (n in a ==> b[n] == a[n])
    ensures TextDates(b) == TextDates(a) + {name.date}
  {
    forall d | d in TextDates(b) && d != name.date
      ensures d in TextDates(a)
    {
      var n :| n in b && b[n] != [] && n.date == d;
      assert n in a && a[n] != [];
    }
    forall d | d in TextDates(a) && d != name.date
      ensures d in TextDates(b)
    {
      var n :| n in a && a[n] != [] && n.date == d;
      assert n in b && b[n] != [];
    }
  }

  lemma {:induction false} BeginMatches(existing: Files, today: Date, sn: nat)
    requires FirstFree(existing, today, sn)
    ensures var s := Begin(existing, today, sn);
            DiskMatches(s, TextDates(existing), today, []) && s.lost == 0
  {
    var s := Begin(existing, today, sn);
    forall d
      ensures d in TextDates(s.disk) <==> d in TextDates(existing)
    {
      if d in TextDates(existing) {
        var name :| name in existing && existing[name] != [] && name.date == d;
        assert name in s.disk && s.disk[name] != [];
      }
      if d in TextDates(s.disk) {
        var name :| name in s.disk && s.disk[name] != [] && name.date == d;
        assert name in existing && existing[name] != [];
      }
    }
  }

  /** Over every run the dates holding texts are those found and those written on, whatever was destroyed. */
  lemma {:induction false} RunMatches(existing: Files, today: Date, sn: nat, es: seq<Entry>, limits: Limits)
    requires FirstFree(existing, today, sn)
    ensures DiskMatches(WriteAll(Begin(existing, today, sn), es, limits), TextDates(existing), today, es)
  {
    hide DiskMatches, Write, Begin, TextDates;
    BeginMatches(existing, today, sn);
    if es == [] {
    } else {
      var n := |es| - 1;
      assert es == es[..n] + [es[n]];
      RunMatches(existing, today, sn, es[..n], limits);
      var s := WriteAll(Begin(existing, today, sn), es[..n], limits);
      WriteMatches(s, TextDates(existing), today, es[..n], es[n], limits);
    }
  }

  // ------------------------------------------------------- runs that lose nothing

  /** No file of the day above the number started with holds a text. */
  ghost predicate NothingAbove(existing: Files, day: Date, sn: nat) {
    forall name :: name in existing && name.date == day && name.sn > sn ==> existing[name] == []
  }

  lemma {:induction false} BeginIsClear(existing: Files, today: Date, sn: nat)
    ensures ClearAhead(Begin(existing, today, sn), today) <==> NothingAbove(existing, today, sn)
  {
    var s := Begin(existing, today, sn);
    assert forall name: Name :: name.date == today && name.sn > sn ==>
        (name in s.disk <==> name in existing) && (name in existing ==> s.disk[name] == existing[name]);
    if !NothingAbove(existing, today, sn) {
      var name :| name in existing && name.date == today && name.sn > sn && existing[name] != [];
      assert name in s.disk && LiesAhead(s, name);
    }
  }

  /** Staying on the date or moving to one without texts leaves nothing ahead; returning to one with texts does not. */
  lemma {:induction false} NextDayIsClearIff(s: Log, left: set<Date>, today: Date, es: seq<Entry>, day: Date)
    requires DiskMatches(s, left, today, es) && ClearAhead(s, s.date)
    ensures ClearAhead(s, day) <==> StaysOrMovesOn(left, today, es, day)
  {
    hide Seen;
    if day != s.date && day in TextDates(s.disk) {
      var name :| name in s.disk && s.disk[name] != [] && name.date == day;
      assert LiesAhead(s, name);
    }
  }

  /** Nothing is destroyed while no text lies ahead at the start and no date with texts returns. */
  lemma {:induction false} RunIsClear(existing: Files, today: Date, sn: nat, es: seq<Entry>, limits: Limits)
    requires FirstFree(existing, today, sn) && NothingAbove(existing, today, sn)
    requires NeverReturns(TextDates(existing), today, es)
    ensures var s := WriteAll(Begin(existing, today, sn), es, limits);
            s.lost == 0 && s.date == LastDate(today, es) && ClearAhead(s, s.date)
  {
    hide NeverReturns, Write, ClearAhead, Begin, TextDates, StaysOrMovesOn, NothingAbove;
    RunMatches(existing, today, sn, es, limits);
    if es == [] {
      BeginMatches(existing, today, sn);
      BeginIsClear(existing, today, sn);
    } else {
      var n := |es| - 1;
      var s := WriteAll(Begin(existing, today, sn), es[..n], limits);
      assert es == es[..n] + [es[n]];
      NeverReturnsSnoc(TextDates(existing), today, es[..n], es[n]);
      RunIsClear(existing, today, sn, es[..n], limits);
      RunMatches(existing, today, sn, es[..n], limits);
      NextDayIsClearIff(s, TextDates(existing), today, es[..n], es[n].today);
      WriteIsClear(s, es[n], limits);
    }
  }

  lemma {:induction false} OneDateNeverReturns(left: set<Date>, today: Date, es: seq<Entry>)
    requires forall i :: 0 <= i < |es| ==> es[i].today == today
    ensures NeverReturns(left, today, es)
  {
    hide Seen;
    forall k | 0 <= k < |es|
      ensures StaysOrMovesOn(left, today, es[..k], es[k].today)
    {
      assert es[..k] != [] ==> es[..k][k - 1] == es[k - 1];
    }
  }

  /**
   On any disk: started with the first free number, the writer destroys no text
   whatever is written, as long as no date with texts returns, exactly when no
   file of the day above that number holds a text.
   */
  lemma {:induction false} RestartIsSafeIff(existing: Files, today: Date, sn: nat, limits: Limits)
    requires FirstFree(existing, today, sn)
    ensures (forall es :: NeverReturns(TextDates(existing), today, es) ==>
                            WriteAll(Begin(existing, today, sn), es, limits).lost == 0)
            <==> NothingAbove(existing, today, sn)
  {
    hide NeverReturns, WriteAll, Begin, TextDates, NothingAbove, FirstFree, ClearAhead, Repeat;
    var s, e := Begin(existing, today, sn), Entry("", today);
    BeginMatches(existing, today, sn);
    BeginIsClear(existing, today, sn);
    if NothingAbove(existing, today, sn) {
      forall es | NeverReturns(TextDates(existing), today, es)
        ensures WriteAll(s, es, limits).lost == 0
      {
        RunIsClear(existing, today, sn, es, limits);
      }
    } else {
      GoingOnIsSafeIff(s, e, limits);
      var n: nat :| WriteAll(s, Repeat(e, n), limits).lost != s.lost;
      OneDateNeverReturns(TextDates(existing), today, Repeat(e, n));
    }
  }

  /**
   On any disk: where nothing has been lost so far, a day can be written on for
   ever without loss exactly when it is the date the writer is on or one
   without texts.
   */
  lemma {:induction false} ReturnIsUnsafeIff(
      existing: Files, today: Date, sn: nat, es: seq<Entry>, e: Entry, limits: Limits)
    requires FirstFree(existing, today, sn) && NothingAbove(existing, today, sn)
    requires NeverReturns(TextDates(existing), today, es)
    ensures var s := WriteAll(Begin(existing, today, sn), es, limits);
            (forall n: nat :: WriteAll(s, Repeat(e, n), limits).lost == 0) <==>
            StaysOrMovesOn(TextDates(existing), today, es, e.today)
  {
    hide NeverReturns, WriteAll, Begin, TextDates, NothingAbove, FirstFree, ClearAhead, Repeat, StaysOrMovesOn;
    var s := WriteAll(Begin(existing, today, sn), es, limits);
    RunIsClear(existing, today, sn, es, limits);
    RunMatches(existing, today, sn, es, limits);
    NextDayIsClearIff(s, TextDates(existing), today, es, e.today);
    GoingOnIsSafeIff(s, e, limits);
  }

  // ------------------------------------------------------- one run, exactly

  /** Every date with texts has some in its file number zero, and so has the day of the start unless it begins there. */
  ghost predicate ZerosHold(existing: Files, today: Date, sn: nat) {
    && (forall d :: d in TextDates(existing) ==> Name(d, 0) in existing && existing[Name(d, 0)] != [])
    && (sn > 0 ==> today in TextDates(existing))
  }

  /** Every date seen has texts in its file number zero, and only dates seen have got beyond it. */
  ghost predicate NumberZeroHolds(s: Log, left: set<Date>, es: seq<Entry>) {
    && (forall d :: Seen(left, es, d) ==> Name(d, 0) in s.disk && s.disk[Name(d, 0)] != [])
    && (s.sn > 0 ==> Seen(left, es, s.date))
  }

  lemma {:induction false} WriteKeepsZeros(s: Log, left: set<Date>, es: seq<Entry>, e: Entry, limits: Limits)
    requires NumberZeroHolds(s, left, es) && Current(s) in s.disk
    ensures NumberZeroHolds(Write(s, e, limits), left, es + [e])
  {
    hide Seen;
    SeenSnoc(left, es, e);
    WriteMovesTo(s, e, limits);
  }

  /** Coming back to a date destroys at least the first text written on it. */
  lemma {:induction false} ReturningLoses(
      s: Log, left: set<Date>, today: Date, es: seq<Entry>, e: Entry, limits: Limits)
    requires DiskMatches(s, left, today, es) && NumberZeroHolds(s, left, es)
    requires !StaysOrMovesOn(left, today, es, e.today)
    ensures Write(s, e, limits).lost > 0
  {
    WriteOnlyLoses(s, e, limits);
    hide Write, Seen;
  }

  lemma {:induction false} BeginKeepsZeros(existing: Files, today: Date, sn: nat)
    requires FirstFree(existing, today, sn) && ZerosHold(existing, today, sn)
    ensures NumberZeroHolds(Begin(existing, today, sn), TextDates(existing), [])
  {
  }

  lemma {:induction false} ReturnsAreFinal(
      existing: Files, today: Date, sn: nat, es: seq<Entry>, limits: Limits)
    requires FirstFree(existing, today, sn) && ZerosHold(existing, today, sn)
    ensures var s := WriteAll(Begin(existing, today, sn), es, limits);
            && DiskMatches(s, TextDates(existing), today, es) && NumberZeroHolds(s, TextDates(existing), es)
            && (!NeverReturns(TextDates(existing), today, es) ==> s.lost > 0)
  {
    hide NeverReturns, Write, NumberZeroHolds, Begin, TextDates, ZerosHold, StaysOrMovesOn;
    RunMatches(existing, today, sn, es, limits);
    if es == [] {
      BeginKeepsZeros(existing, today, sn);
      NeverReturnsAtFirst(TextDates(existing), today);
    } else {
      var n := |es| - 1;
      var s := WriteAll(Begin(existing, today, sn), es[..n], limits);
      assert es == es[..n] + [es[n]];
      NeverReturnsSnoc(TextDates(existing), today, es[..n], es[n]);
      ReturnsAreFinal(existing, today, sn, es[..n], limits);
      WriteKeepsZeros(s, TextDates(existing), es[..n], es[n], limits);
      WriteOnlyLoses(s, es[n], limits);
      if !StaysOrMovesOn(TextDates(existing), today, es[..n], es[n].today) {
        ReturningLoses(s, TextDates(existing), today, es[..n], es[n], limits);
      }
    }
  }

  /**
   Every text survives, those already there included, exactly when no date is
   written on again after it has been left.
   */
  lemma {:induction false} NothingIsLostIff(
      existing: Files, today: Date, sn: nat, es: seq<Entry>, limits: Limits)
    requires FirstFree(existing, today, sn) && NothingAbove(existing, today, sn) && ZerosHold(existing, today, sn)
    ensures WriteAll(Begin(existing, today, sn), es, limits).lost == 0 <==>
            NeverReturns(TextDates(existing), today, es)
  {
    hide NeverReturns, TextDates, ZerosHold, NothingAbove, Begin, WriteAll;
    ReturnsAreFinal(existing, today, sn, es, limits);
    if NeverReturns(TextDates(existing), today, es) {
      RunIsClear(existing, today, sn, es, limits);
    }
  }

  // ------------------------------------------------------- files found at the start

  /** Files found and not opened are as they were; opening one that held texts has been counted. */
  ghost predicate Accounted(s: Log, existing: Files) {
    && Current(s) in s.openings
    && (forall name :: name in existing && name !in s.openings ==> name in s.disk && s.disk[name] == existing[name])
    && (forall name :: name in existing && name in s.openings && existing[name] != [] ==> s.lost > 0)
  }

  lemma {:induction false} OpenIsAccounted(s: Log, existing: Files, name: Name, line: nat, size: nat)
    requires Accounted(s, existing)
    ensures Accounted(OpenFile(s.(date := name.date, sn := name.sn, line := line, size := size), name), existing)
  {
    assert forall n :: n in s.openings + [name] <==> n in s.openings || n == name;
    assert name in existing && name !in s.openings ==> name in s.disk && s.disk[name] == existing[name];
  }

  lemma {:induction false} WriteIsAccounted(s: Log, e: Entry, limits: Limits, existing: Files)
    requires Accounted(s, existing)
    ensures Accounted(Write(s, e, limits), existing)
  {
    var s0 := NewDay(s, e.today);
    OpenIsAccounted(s, existing, Name(e.today, 0), 0, 0);
    AppendIsAccounted(s0, e.txt, existing);
    var s1 := Append(s0, e.txt);
    OpenIsAccounted(s1, existing, Name(s1.date, s1.sn + 1), 0, 0);
    hide NewDay, Append, Accounted, OpenFile;
    CountingIsAccounted(Rotate(s1, limits), |e.txt|, existing);
  }

  lemma {:induction false} AppendIsAccounted(s: Log, txt: Text, existing: Files)
    requires Accounted(s, existing)
    ensures Accounted(Append(s, txt), existing)
  {
  }

  lemma {:induction false} CountingIsAccounted(s: Log, k: nat, existing: Files)
    requires Accounted(s, existing)
    ensures Accounted(s.(size := s.size + k, line := s.line + 1), existing)
  {
  }

  /** On any disk and over every run: as long as nothing is lost, every file found with texts is as it was. */
  lemma {:induction false} LossesAreCounted(existing: Files, today: Date, sn: nat, es: seq<Entry>, limits: Limits)
    requires FirstFree(existing, today, sn)
    ensures var s := WriteAll(Begin(existing, today, sn), es, limits);
            && Accounted(s, existing)
            && (s.lost == 0 ==>
                  forall name :: name in existing && existing[name] != [] ==>
                    name in s.disk && s.disk[name] == existing[name])
  {
    assert Accounted(WriteAll(Begin(existing, today, sn), es, limits), existing) by {
      hide Accounted, Write, Begin;
      if es == [] {
        BeginIsAccounted(existing, today, sn);
      } else {
        var n := |es| - 1;
        LossesAreCounted(existing, today, sn, es[..n], limits);
        WriteIsAccounted(WriteAll(Begin(existing, today, sn), es[..n], limits), es[n], limits, existing);
      }
    }
  }

  lemma {:induction false} BeginIsAccounted(existing: Files, today: Date, sn: nat)
    requires FirstFree(existing, today, sn)
    ensures Accounted(Begin(existing, today, sn), existing)
  {
  }

  /** None of the names has been opened, nor will be if the day goes on. */
  ghost predicate Closed(s: Log, kept: set<Name>) {
    && (forall name :: name in s.openings ==> name !in kept)
    && (forall name :: name in kept && name.date == s.date ==> name.sn < s.sn)
  }

  lemma {:induction false} WriteLeavesClosed(
      s: Log, kept: set<Name>, today: Date, es: seq<Entry>, e: Entry, limits: Limits)
    requires Closed(s, kept) && s.date == LastDate(today, es) && StaysOrMovesOn(DatesOf(kept), today, es, e.today)
    ensures Closed(Write(s, e, limits), kept) && Write(s, e, limits).date == e.today
  {
    assert forall name :: name in kept && name.date == e.today && e.today != s.date ==> e.today in DatesOf(kept);
  }

  /** Files found below the number started with, or of dates that do not return, are never touched. */
  lemma {:induction false} ExistingFilesSurvive(
      existing: Files, kept: set<Name>, today: Date, sn: nat, es: seq<Entry>, limits: Limits)
    requires FirstFree(existing, today, sn) && kept <= existing.Keys
    requires forall name :: name in kept && name.date == today ==> name.sn < sn
    requires NeverReturns(DatesOf(kept), today, es)
    ensures var s := WriteAll(Begin(existing, today, sn), es, limits);
            && s.date == LastDate(today, es) && Closed(s, kept)
            && forall name :: name in kept ==> name !in s.openings && name in s.disk && s.disk[name] == existing[name]
  {
    hide NeverReturns, Write, Begin, DatesOf, StaysOrMovesOn, Closed;
    LossesAreCounted(existing, today, sn, es, limits);
    if es == [] {
      BeginIsClosed(existing, kept, today, sn);
    } else {
      var n := |es| - 1;
      assert es == es[..n] + [es[n]];
      NeverReturnsSnoc(DatesOf(kept), today, es[..n], es[n]);
      ExistingFilesSurvive(existing, kept, today, sn, es[..n], limits);
      WriteLeavesClosed(WriteAll(Begin(existing, today, sn), es[..n], limits), kept, today, es[..n], es[n], limits);
    }
    ClosedStay(WriteAll(Begin(existing, today, sn), es, limits), existing, kept);
  }

  lemma {:induction false} BeginIsClosed(existing: Files, kept: set<Name>, today: Date, sn: nat)
    requires FirstFree(existing, today, sn) && kept <= existing.Keys
    requires forall name :: name in kept && name.date == today ==> name.sn < sn
    ensures Closed(Begin(existing, today, sn), kept) && Begin(existing, today, sn).date == today
  {
  }

  lemma {:induction false} ClosedStay(s: Log, existing: Files, kept: set<Name>)
    requires Accounted(s, existing) && Closed(s, kept) && kept <= existing.Keys
    ensures forall name :: name in kept ==> name !in s.openings && name in s.disk && s.disk[name] == existing[name]
  {
  }

  // ------------------------------------------------------- the writer's own disks

  /** The numbers of the day's files begin at zero and leave none out. */
  ghost predicate NumberedWithoutGap(existing: Files, day: Date) {
    forall name, k: nat :: name in existing && name.date == day && k < name.sn ==> Name(day, k) in existing
  }

  ghost predicate NoGaps(files: Files) {
    forall day :: NumberedWithoutGap(files, day)
  }

  lemma {:induction false} OpenLeavesNoGap(s: Log, name: Name)
    requires NoGaps(s.disk) && (name.sn > 0 ==> Name(name.date, name.sn - 1) in s.disk)
    ensures NoGaps(OpenFile(s, name).disk)
  {
    var disk := OpenFile(s, name).disk;
    forall n, k: nat | n in disk && k < n.sn
      ensures Name(n.date, k) in disk
    {
      assert NumberedWithoutGap(s.disk, n.date);
      if n == name && k < name.sn - 1 {
        assert Name(name.date, name.sn - 1).date == n.date;
      }
    }
  }

  lemma {:induction false} WriteLeavesNoGap(s: Log, e: Entry, limits: Limits)
    requires NoGaps(s.disk) && Current(s) in s.disk
    ensures var s' := Write(s, e, limits);
            NoGaps(s'.disk) && Current(s') in s'.disk
  {
    hide NoGaps;
    var s0 := NewDay(s, e.today);
    OpenLeavesNoGap(s, Name(e.today, 0));
    var s1 := Append(s0, e.txt);
    SameNamesSameGaps(s0.disk, s1.disk);
    OpenLeavesNoGap(s1, Name(s1.date, s1.sn + 1));
  }

  lemma {:induction false} SameNamesSameGaps(a: Files, b: Files)
    requires a.Keys == b.Keys && NoGaps(a)
    ensures NoGaps(b)
  {
    forall name, k: nat | name in b && k < name.sn
      ensures Name(name.date, k) in b
    {
      assert NumberedWithoutGap(a, name.date) && name in a.Keys && Name(name.date, k) in a.Keys;
    }
  }

  /** The writer itself never leaves a gap, so that it can be started again on what it wrote. */
  lemma {:induction false} NoGapArises(existing: Files, today: Date, sn: nat, es: seq<Entry>, limits: Limits)
    requires FirstFree(existing, today, sn) && NoGaps(existing)
    ensures var s := WriteAll(Begin(existing, today, sn), es, limits);
            NoGaps(s.disk) && Current(s) in s.disk
  {
    hide NoGaps, Write;
    if es == [] {
      OpenLeavesNoGap(Log(today, sn, 0, 0, existing, [], 0), Name(today, sn));
    } else {
      var n := |es| - 1;
      NoGapArises(existing, today, sn, es[..n], limits);
      WriteLeavesNoGap(WriteAll(Begin(existing, today, sn), es[..n], limits), es[n], limits);
    }
  }

  lemma {:induction false} GaplessIsBelow(existing: Files, today: Date, sn: nat)
    requires FirstFree(existing, today, sn) && NumberedWithoutGap(existing, today)
    ensures NothingAbove(existing, today, sn)
    ensures forall name :: name in existing && name.date == today ==> name.sn < sn
  {
    forall name | name in existing && name.date == today
      ensures name.sn < sn
    {
      assert name.sn > sn ==> Name(today, sn) in existing;
      assert name == Name(today, name.sn);
    }
  }

  lemma {:induction false} FewerLeft(left: set<Date>, fewer: set<Date>, today: Date, es: seq<Entry>)
    requires fewer <= left && NeverReturns(left, today, es)
    ensures NeverReturns(fewer, today, es)
  {
    forall k | 0 <= k < |es|
      ensures StaysOrMovesOn(fewer, today, es[..k], es[k].today)
    {
      assert StaysOrMovesOn(left, today, es[..k], es[k].today);
    }
  }

  /** Started again on what it wrote, the writer touches none of the files until it returns to one of their dates. */
  lemma {:induction false} OwnFilesSurvive(existing: Files, today: Date, sn: nat, es: seq<Entry>, limits: Limits)
    requires FirstFree(existing, today, sn) && NumberedWithoutGap(existing, today)
    requires NeverReturns(DatesOf(existing.Keys), today, es)
    ensures var s := WriteAll(Begin(existing, today, sn), es, limits);
            && s.lost == 0
            && forall name :: name in existing ==>
                 name !in s.openings && name in s.disk && s.disk[name] == existing[name]
  {
    hide NeverReturns, Begin, WriteAll, FirstFree, NumberedWithoutGap;
    GaplessIsBelow(existing, today, sn);
    ExistingFilesSurvive(existing, existing.Keys, today, sn, es, limits);
    FewerLeft(DatesOf(existing.Keys), TextDates(existing), today, es);
    RunIsClear(existing, today, sn, es, limits);
  }

  // ------------------------------------------------------- runs that lose texts

  /** A write that neither changes the day nor rotates. */
  lemma {:induction false} PlainWrite(s: Log, e: Entry, limits: Limits)
    requires e.today == s.date && s.line < limits.maxLine && s.size < limits.maxSize && Current(s) in s.disk
    ensures Write(s, e, limits) ==
              s.(disk := s.disk[Current(s) := s.disk[Current(s)] + [e.txt]],
                 size := s.size + |e.txt|, line := s.line + 1)
  {
  }

  /** The first write on another day. */
  lemma {:induction false} NextDayWrite(s: Log, e: Entry, limits: Limits)
    requires e.today != s.date && limits.maxLine > 0 && limits.maxSize > 0
    ensures var name := Name(e.today, 0);
            Write(s, e, limits) ==
              Log(e.today, 0, |e.txt|, 1, s.disk[name := [e.txt]], s.openings + [name],
                  s.lost + if name in s.disk then |s.disk[name]| else 0)
  {
    hide Write;
    var s0 := NewDay(s, e.today);
    PlainWrite(s0, e, limits);
    var name := Name(e.today, 0);
    assert [] + [e.txt] == [e.txt] && s.disk[name := []][name := [e.txt]] == s.disk[name := [e.txt]];
    SameDayAfterwards(s, e, limits);
  }

  lemma {:induction false} SameDayAfterwards(s: Log, e: Entry, limits: Limits)
    ensures Write(s, e, limits) == Write(NewDay(s, e.today), e, limits)
  {
  }

  /** Three entries whose last goes back to the first one's date: the first text is gone. */
  lemma {:induction false} ReturningDateLosesText(limits: Limits, a: Date, b: Date)
    requires a != b && limits.maxLine > 0 && limits.maxSize > 0
    ensures var s := WriteAll(Begin(map[], a, 0), [Entry("x", a), Entry("y", b), Entry("z", a)], limits);
            s.lost == 1 && s.disk == map[Name(a, 0) := ["z"], Name(b, 0) := ["y"]]
  {
    hide Write;
    var x, y, z := Entry("x", a), Entry("y", b), Entry("z", a);
    var s0 := Begin(map[], a, 0);
    assert [] + [x] == [x] && [x] + [y] == [x, y] && [x, y] + [z] == [x, y, z];
    WriteAllSnoc(s0, [], x, limits);
    WriteAllSnoc(s0, [x], y, limits);
    WriteAllSnoc(s0, [x, y], z, limits);
    PlainWrite(s0, x, limits);
    var s1 := Write(s0, x, limits);
    assert [] + ["x"] == ["x"] && s1.disk == map[Name(a, 0) := ["x"]];
    NextDayWrite(s1, y, limits);
    NextDayWrite(Write(s1, y, limits), z, limits);
  }

  /**
   Started twice on a date before anything was written there, the writer finds
   its file zero empty: the date returns, and so far nothing is lost.
   */
  lemma {:induction false} EmptyZeroDelaysLoss(limits: Limits, a: Date, b: Date)
    requires a != b && limits.maxLine > 0 && limits.maxSize > 0
    ensures var existing, es := Begin(map[], a, 0).disk, [Entry("x", a), Entry("y", b), Entry("z", a)];
            && FirstFree(existing, a, 1) && NothingAbove(existing, a, 1)
            && !NeverReturns(TextDates(existing), a, es)
            && WriteAll(Begin(existing, a, 1), es, limits).lost == 0
  {
    hide Write, WriteAll;
    var x, y, z, existing := Entry("x", a), Entry("y", b), Entry("z", a), Begin(map[], a, 0).disk;
    var s0 := Begin(existing, a, 1);
    assert [] + [x] == [x] && [x] + [y] == [x, y] && [x, y] + [z] == [x, y, z];
    WriteNothing(s0, limits);
    WriteAllSnoc(s0, [], x, limits);
    WriteAllSnoc(s0, [x], y, limits);
    WriteAllSnoc(s0, [x, y], z, limits);
    PlainWrite(s0, x, limits);
    var s1 := Write(s0, x, limits);
    NextDayWrite(s1, y, limits);
    NextDayWrite(Write(s1, y, limits), z, limits);
    assert [x, y, z][..2] == [x, y] && [x, y][0].today == a;
  }

  /** Files 0 and 2 on the disk, one day, a limit of one line: the rotation out of file 1 empties file 2. */
  lemma {:induction false} GapIsOverwritten(day: Date)
    ensures var existing := map[Name(day, 0) := ["x"], Name(day, 2) := ["y"]];
            var s := WriteAll(Begin(existing, day, 1), [Entry("v", day), Entry("w", day)], Limits(1, 100));
            && FirstFree(existing, day, 1) && s.lost == 1
            && s.disk == map[Name(day, 0) := ["x"], Name(day, 1) := ["v", "w"], Name(day, 2) := []]
  {
    hide WriteAll, Write;
    var v, w, limits := Entry("v", day), Entry("w", day), Limits(1, 100);
    var existing := map[Name(day, 0) := ["x"], Name(day, 2) := ["y"]];
    var s0 := Begin(existing, day, 1);
    assert [] + [v] == [v] && [v] + [w] == [v, w];
    WriteNothing(s0, limits);
    WriteAllSnoc(s0, [], v, limits);
    WriteAllSnoc(s0, [v], w, limits);
    PlainWrite(s0, v, limits);
    assert [] + ["v"] == ["v"] && ["v"] + ["w"] == ["v", "w"];
    RotatingWrite(Write(s0, v, limits), w, limits);
  }

  lemma {:induction false} WriteNothing(start: Log, limits: Limits)
    ensures WriteAll(start, [], limits) == start
  {
  }

  /** A write behind which the next file of the day is opened. */
  lemma {:induction false} RotatingWrite(s: Log, e: Entry, limits: Limits)
    requires e.today == s.date && s.line >= limits.maxLine && Current(s) in s.disk
    ensures var next := Name(s.date, s.sn + 1);
            Write(s, e, limits) ==
              Log(s.date, s.sn + 1, |e.txt|, 1, s.disk[Current(s) := s.disk[Current(s)] + [e.txt]][next := []],
                  s.openings + [next], s.lost + if next in s.disk then |s.disk[next]| else 0)
  {
  }

}
