/**
 * A weather station of the climate statistics: its header line, and its
 * measurements kept in a map keyed by date, with filtered, duplicate-free
 * insertion and the first day of measurement. Dates are day numbers.
 */
module Stations {
  import opened Wrappers
  import opened JavaInt
  import opened Text

  /** The part of a measurement this model keeps: its station number and date. */
  datatype Measurement = Measurement(stn: int, date: int)

  /** The identity a header line gives a station. */
  datatype Header = Header(stn: Int32, name: string)

  /**
   * `Station.fromLine`: split on ","; fewer than two fields is rejected; the
   * trimmed first field must parse as an `int` (otherwise the
   * NumberFormatException is caught and the line rejected); the name is the
   * trimmed second field. Fields after the second are ignored.
   */
  function ParseHeader(line: string): (r: Option<Header>)
    ensures |Split(line, ",")| < 2 ==> r == None
    ensures r.Some? <==> |Split(line, ",")| >= 2 && ParseInt(Trim(Split(line, ",")[0])).Some?
    ensures r.Some? ==> Some(r.value.stn) == ParseInt(Trim(Split(line, ",")[0]))
                        && r.value.name == Trim(Split(line, ",")[1])
  {
    var fields := Split(line, ",");
    if |fields| < 2 then None
    else
      match ParseInt(Trim(fields[0]))
      case None => None
      case Some(stn) => Some(Header(stn, Trim(fields[1])))
  }

  /** A printed number starts and ends with a character that `trim` keeps. */
  lemma NumberUntrimmed(n: int)
    ensures !IsTrimmed(IntToString(n)[0]) && !IsTrimmed(IntToString(n)[|IntToString(n)| - 1])
  {
    var s := IntToString(n);
    if n < 0 {
      assert forall i :: 1 <= i < |s| ==> s[i] == NatToString(-n)[i - 1];
    }
  }

  /**
   * A header written as `stn,name` is read back, for a non-empty name without
   * commas and without leading or trailing blanks.
   */
  lemma {:induction false} ParseWrittenHeader(h: Header)
    requires h.name != []
    requires forall i :: 0 <= i < |h.name| ==> h.name[i] != ','
    requires !IsTrimmed(h.name[0]) && !IsTrimmed(h.name[|h.name| - 1])
    ensures ParseHeader(IntToString(h.stn) + "," + h.name) == Some(h)
  {
    var code := IntToString(h.stn);
    NumberUntrimmed(h.stn);
    IntToStringNoComma(h.stn);
    SplitTwo(code, ",", h.name);
    TrimUntouched(code);
    TrimUntouched(h.name);
    ParseIntToString(h.stn);
  }

  /**
   * A line that ends in the comma, with nothing after it, is rejected: the
   * trailing empty name is dropped by the split, leaving one field.
   */
  lemma {:induction false} EmptyNameRejected(s: string)
    requires forall i :: 0 <= i < |s| ==> s[i] != ','
    ensures ParseHeader(s + ",") == None
  {
    var line := s + ",";
    IndexAfterPrefix(s, ",", "");
    assert s + "," + "" == line;
    assert line[|s| + 1..] == "";
    assert line[..|s|] == s;
    assert Pieces("", ",") == [""];
    assert Pieces(line, ",") == [s, ""];
    assert DropTrailingEmpty([s, ""]) == DropTrailingEmpty([s]);
  }

  /** Whether `addMeasurements` takes `m` into `stored` for station `stn`. */
  predicate Takes(stored: map<int, Measurement>, stn: int, m: Measurement) {
    m.stn == stn && m.date !in stored
  }

  /**
   * The stored measurements after `addMeasurements(batch)`: the batch is
   * filtered and put in order, and the date test sees the entries put before
   * it, so the first measurement of a date wins.
   */
  function AddAll(stored: map<int, Measurement>, stn: int, batch: seq<Measurement>): (r: map<int, Measurement>)
    decreases |batch|
  {
    if batch == [] then stored
    else
      var m := batch[0];
      AddAll(if Takes(stored, stn, m) then stored[m.date := m] else stored, stn, batch[1..])
  }

  /** Every stored entry survives a batch unchanged. */
  lemma {:induction false} AddAllKeeps(stored: map<int, Measurement>, stn: int, batch: seq<Measurement>)
    ensures forall d :: d in stored ==> d in AddAll(stored, stn, batch) && AddAll(stored, stn, batch)[d] == stored[d]
    decreases |batch|
  {
    if batch != [] {
      var m := batch[0];
      var next := if Takes(stored, stn, m) then stored[m.date := m] else stored;
      AddAllKeeps(next, stn, batch[1..]);
    }
  }

  /**
   * A date that is new after a batch was given by a measurement of this
   * station in the batch, and its entry is the first such measurement.
   */
  lemma {:induction false} AddAllNew(stored: map<int, Measurement>, stn: int, batch: seq<Measurement>, d: int)
    requires d in AddAll(stored, stn, batch) && d !in stored
    ensures exists i :: 0 <= i < |batch| && batch[i].stn == stn && batch[i].date == d
                        && AddAll(stored, stn, batch)[d] == batch[i]
                        && forall j :: 0 <= j < i ==> !(batch[j].stn == stn && batch[j].date == d)
    decreases |batch|
  {
    var m := batch[0];
    if Takes(stored, stn, m) && m.date == d {
      AddAllKeeps(stored[d := m], stn, batch[1..]);
      assert AddAll(stored, stn, batch)[d] == batch[0];
    } else {
      var next, rest := if Takes(stored, stn, m) then stored[m.date := m] else stored, batch[1..];
      assert AddAll(stored, stn, batch) == AddAll(next, stn, rest);
      AddAllNew(next, stn, rest, d);
      var i :| 0 <= i < |rest| && rest[i].stn == stn && rest[i].date == d
               && AddAll(next, stn, rest)[d] == rest[i]
               && forall j :: 0 <= j < i ==> !(rest[j].stn == stn && rest[j].date == d);
      assert batch[i + 1] == rest[i];
      forall j | 0 <= j < i + 1
        ensures !(batch[j].stn == stn && batch[j].date == d)
      {
        if j > 0 {
          assert batch[j] == rest[j - 1];
        }
      }
    }
  }

  /** Every measurement of this station in the batch has its date stored afterwards. */
  lemma {:induction false} AddAllCovers(stored: map<int, Measurement>, stn: int, batch: seq<Measurement>)
    ensures forall i :: 0 <= i < |batch| && batch[i].stn == stn ==> batch[i].date in AddAll(stored, stn, batch)
    decreases |batch|
  {
    if batch != [] {
      var m := batch[0];
      var next := if Takes(stored, stn, m) then stored[m.date := m] else stored;
      AddAllCovers(next, stn, batch[1..]);
      AddAllKeeps(next, stn, batch[1..]);
      assert forall i :: 1 <= i < |batch| ==> batch[i] == batch[1..][i - 1];
    }
  }

  /** Stored entries are keyed by their own date and belong to station `stn`. */
  ghost predicate KeyedByDate(ms: map<int, Measurement>, stn: int) {
    forall d :: d in ms ==> ms[d].date == d && ms[d].stn == stn
  }

  /** A batch keeps the entries keyed by their own date and of this station. */
  lemma {:induction false} AddAllKeyed(stored: map<int, Measurement>, stn: int, batch: seq<Measurement>)
    requires KeyedByDate(stored, stn)
    ensures KeyedByDate(AddAll(stored, stn, batch), stn)
    decreases |batch|
  {
    if batch != [] {
      var m := batch[0];
      var next := if Takes(stored, stn, m) then stored[m.date := m] else stored;
      AddAllKeyed(next, stn, batch[1..]);
    }
  }

  /** A non-empty finite set of integers has a least element. */
  lemma {:induction false} LeastExists(s: set<int>)
    requires s != {}
    ensures exists m :: m in s && forall y :: y in s ==> m <= y
    decreases |s|
  {
    var x := SomeElement(s);
    var rest := s - {x};
    if rest == {} {
      forall y | y in s
        ensures x <= y
      {
        assert y == x || y in rest;
      }
    } else {
      LeastExists(rest);
      var r :| r in rest && forall y :: y in rest ==> r <= y;
      var m := if x < r then x else r;
      assert forall y :: y in s ==> y == x || y in rest;
      assert m in s && forall y :: y in s ==> m <= y;
    }
  }

  /** The least element of a non-empty set. */
  function Least(s: set<int>): (m: int)
    requires s != {}
    ensures m in s && forall x :: x in s ==> m <= x
  {
    LeastExists(s);
    var m :| m in s && forall x :: x in s ==> m <= x;
    m
  }

  /** A station with its measurements by date. */
  class Station {
    const stn: int
    const name: string
    var measurements: map<int, Measurement>

    /** Every stored measurement is of this station and keyed by its own date. */
    ghost predicate Valid()
      reads this
    {
      KeyedByDate(measurements, stn)
    }

    constructor (stn: int, name: string)
      ensures Valid()
      ensures this.stn == stn && this.name == name && measurements == map[]
    {
      this.stn := stn;
      this.name := name;
      measurements := map[];
    }

    /** `Station.fromLine`: a new station for a well-formed line, otherwise null. */
    static method FromLine(line: string) returns (station: Station?)
      ensures station == null <==> ParseHeader(line).None?
      ensures station != null ==> fresh(station) && station.Valid() && station.measurements == map[]
                                  && station.stn == ParseHeader(line).value.stn
                                  && station.name == ParseHeader(line).value.name
    {
      match ParseHeader(line)
      case None =>
        station := null;
      case Some(h) =>
        station := new Station(h.stn, h.name);
    }

    /**
     * `addMeasurements`: stores, in order, the measurements of this station
     * whose date is not stored yet, and returns how many entries were added.
     */
    method AddMeasurements(batch: seq<Measurement>) returns (added: int)
      requires Valid()
      modifies this
      ensures Valid()
      ensures measurements == AddAll(old(measurements), stn, batch)
      ensures added == |measurements| - |old(measurements)| && added >= 0
    {
      var oldSize := |measurements|;
      ghost var before := measurements;
      for i := 0 to |batch|
        invariant AddAll(measurements, stn, batch[i..]) == AddAll(old(measurements), stn, batch)
      {
        var m := batch[i];
        assert batch[i..][1..] == batch[i + 1..];
        if m.stn == stn && m.date !in measurements {
          measurements := measurements[m.date := m];
        }
      }
      assert batch[|batch|..] == [];
      AddAllKeyed(before, stn, batch);
      AddAllKeeps(before, stn, batch);
      assert forall d :: d in before.Keys ==> d in measurements.Keys;
      CardinalityMonotone(before.Keys, measurements.Keys);
      added := |measurements| - oldSize;
    }

    /**
     * `firstDayOfMeasurement`: empty exactly when nothing is stored, otherwise
     * the smallest date among the stored measurements.
     */
    function FirstDayOfMeasurement(): (r: Option<int>)
      reads this
      ensures r.None? <==> measurements == map[]
      ensures r.Some? ==> (exists d :: d in measurements && measurements[d].date == r.value)
                          && forall d :: d in measurements ==> r.value <= measurements[d].date
    {
      if measurements == map[] then None
      else
        var dates := set d | d in measurements :: measurements[d].date;
        assert dates != {} by {
          var k := SomeElement(measurements.Keys);
          assert measurements[k].date in dates;
        }
        assert forall d :: d in measurements ==> measurements[d].date in dates;
        Some(Least(dates))
    }
  }

  /** The first day of measurement is the least stored date. */
  lemma FirstDayIsLeastKey(s: Station)
    requires s.Valid() && s.measurements != map[]
    ensures s.FirstDayOfMeasurement().Some?
    ensures s.FirstDayOfMeasurement().value in s.measurements
    ensures forall d :: d in s.measurements ==> s.FirstDayOfMeasurement().value <= d
  {
  }

  lemma CardinalityMonotone(a: set<int>, b: set<int>)
    requires a <= b
    ensures |a| <= |b|
  {
    assert b == a + (b - a);
  }
}
