/** Cutting an H.264 byte stream (Annex B of ITU-T H.264), read in arbitrary pieces, into access units at the access
    unit delimiter. */
module H264 {
  import opened Options
  import opened Wire

  /** A four-byte start code and the header of an access unit delimiter. */
  const AUD: Bytes := [0, 0, 0, 1, 9]

  predicate IsMarker(s: Bytes, p: nat)
  {
    p + 5 <= |s| && s[p..p + 5] == AUD
  }

  /** The first marker at or after `from`. */
  function Find(s: Bytes, from: nat): (p: Option<nat>)
    ensures p.Some? ==> from <= p.value && IsMarker(s, p.value)
    decreases |s| - from
  {
    if from + 5 > |s| then None
    else if s[from..from + 5] == AUD then Some(from)
    else Find(s, from + 1)
  }

  /** The units of `s` from the marker at `start` on. */
  function Units(s: Bytes, start: nat): (units: seq<Bytes>)
    requires start <= |s|
    ensures units != []
    decreases |s| - start
  {
    var next := Find(s, start + 1);
    if next.None? then [s[start..]] else [s[start..next.value]] + Units(s, next.value)
  }

  /** What the whole stream should be cut into: nothing before the first marker, then one unit per marker. */
  function Cut(s: Bytes): seq<Bytes>
  {
    var first := Find(s, 0);
    if first.None? then [] else Units(s, first.value)
  }

  // ----- What the cut means -----

  function Flatten(units: seq<Bytes>): Bytes
  {
    if units == [] then [] else units[0] + Flatten(units[1..])
  }

  lemma {:induction false} FindFirst(s: Bytes, from: nat, p: nat)
    requires from <= p && IsMarker(s, p)
    ensures Find(s, from).Some? && Find(s, from).value <= p
    decreases |s| - from
  {
    if s[from..from + 5] != AUD {
      FindFirst(s, from + 1, p);
    }
  }

  /** The units, joined, are the stream from the first marker on: nothing lost, nothing repeated. */
  lemma {:induction false} UnitsJoin(s: Bytes, start: nat)
    requires start <= |s|
    ensures Flatten(Units(s, start)) == s[start..]
    decreases |s| - start
  {
    var next := Find(s, start + 1);
    if next.None? {
      assert [s[start..]][1..] == [];
    } else {
      UnitsJoin(s, next.value);
      assert Units(s, start)[1..] == Units(s, next.value);
      assert s[start..] == s[start..next.value] + s[next.value..];
    }
  }

  /** Where unit `k` begins. */
  function StartOf(start: nat, units: seq<Bytes>, k: nat): nat
    requires k <= |units|
    decreases k
  {
    if k == 0 then start else StartOf(start + |units[0]|, units[1..], k - 1)
  }

  /** Units begin at markers, and every marker begins a unit. */
  lemma {:induction false} UnitsAtMarkers(s: Bytes, start: nat, k: nat)
    requires IsMarker(s, start) && k < |Units(s, start)|
    ensures IsMarker(s, StartOf(start, Units(s, start), k))
    decreases k
  {
    if k > 0 {
      var next := Find(s, start + 1).value;
      assert Units(s, start)[1..] == Units(s, next);
      UnitsAtMarkers(s, next, k - 1);
    }
  }

  lemma {:induction false} MarkersAtUnits(s: Bytes, start: nat, p: nat) returns (k: nat)
    requires IsMarker(s, start) && start <= p && IsMarker(s, p)
    ensures k < |Units(s, start)| && StartOf(start, Units(s, start), k) == p
    decreases |s| - start
  {
    k := 0;
    if start < p {
      FindFirst(s, start + 1, p);
      var next := Find(s, start + 1).value;
      assert Units(s, start)[1..] == Units(s, next);
      k := MarkersAtUnits(s, next, p);
      k := k + 1;
    }
  }

  /** A unit of the cut of `s` begins at `p`. */
  ghost predicate BeginsUnit(s: Bytes, p: nat)
  {
    Find(s, 0).Some? && exists k :: 0 <= k < |Cut(s)| && StartOf(Find(s, 0).value, Cut(s), k) == p
  }

  /** The cut of a stream is its part from the first marker on, with a unit beginning exactly at every marker. */
  lemma CutSpec(s: Bytes, p: nat)
    ensures IsMarker(s, p) <==> BeginsUnit(s, p)
    ensures Find(s, 0).None? ==> Cut(s) == []
    ensures Find(s, 0).Some? ==> Flatten(Cut(s)) == s[Find(s, 0).value..] && (IsMarker(s, p) ==> Find(s, 0).value <= p)
  {
    hide Units, StartOf, AUD;
    if IsMarker(s, p) {
      FindFirst(s, 0, p);
      var k := MarkersAtUnits(s, Find(s, 0).value, p);
      assert StartOf(Find(s, 0).value, Cut(s), k) == p;
    }
    if Find(s, 0).Some? {
      UnitsJoin(s, Find(s, 0).value);
    }
    if BeginsUnit(s, p) {
      var k :| 0 <= k < |Cut(s)| && StartOf(Find(s, 0).value, Cut(s), k) == p;
      UnitsAtMarkers(s, Find(s, 0).value, k);
    }
  }

  // ----- The reader -----

  /** What is still to be emitted: before any marker, the cut of the buffer; after, its units from the open one on. */
  function Pending(start: Option<nat>, s: Bytes): seq<Bytes>
    requires start.Some? ==> start.value <= |s|
  {
    if start.None? then Cut(s) else Units(s, start.value)
  }

  function SearchFrom(start: Option<nat>): nat
  {
    if start.None? then 0 else start.value + 1
  }

  lemma MarkerExtends(s: Bytes, rest: Bytes, p: nat)
    requires p + 5 <= |s|
    ensures IsMarker(s + rest, p) <==> IsMarker(s, p)
  {}

  /** A marker found in what has been read is also the first one in the whole stream. */
  lemma {:induction false} FindExtends(s: Bytes, rest: Bytes, from: nat)
    requires Find(s, from).Some?
    ensures Find(s + rest, from) == Find(s, from)
    decreases |s| - from
  {
    MarkerExtends(s, rest, from);
    if s[from..from + 5] != AUD {
      FindExtends(s, rest, from + 1);
    }
  }

  /** Dropping what lies before the open unit changes nothing. */
  lemma {:induction false} FindShifts(s: Bytes, drop: nat, from: nat)
    requires drop <= from && drop <= |s|
    ensures var p, q := Find(s, from), Find(s[drop..], from - drop);
      if p.None? then q.None? else q == Some(p.value - drop)
    decreases |s| - from
  {
    if from + 5 <= |s| {
      assert s[drop..][from - drop..from - drop + 5] == s[from..from + 5];
      if s[from..from + 5] != AUD {
        FindShifts(s, drop, from + 1);
      }
    }
  }

  lemma {:induction false} UnitsShift(s: Bytes, drop: nat, start: nat)
    requires drop <= start <= |s|
    ensures Units(s, start) == Units(s[drop..], start - drop)
    decreases |s| - start
  {
    hide Find, AUD;
    FindShifts(s, drop, start + 1);
    var next := Find(s, start + 1);
    if next.Some? {
      UnitsShift(s, drop, next.value);
      assert s[drop..][start - drop..next.value - drop] == s[start..next.value];
    } else {
      assert s[drop..][start - drop..] == s[start..];
    }
  }

  method Search(s: Bytes, from: nat) returns (p: Option<nat>)
    ensures p == Find(s, from)
  {
    var i := from;
    while i + 5 <= |s|
      invariant Find(s, from) == Find(s, i)
      decreases |s| - i
    {
      if s[i..i + 5] == AUD {
        return Some(i);
      }
      i := i + 1;
    }
    return None;
  }

  lemma TooShort(s: Bytes, from: nat)
    ensures from + 5 > |s| ==> Find(s, from).None?
  {}

  /** Finding a marker closes the open unit, if any, and opens the next. */
  lemma PendingStep(buf: Bytes, rest: Bytes, open: Option<nat>, pos: nat, units: seq<Bytes>)
    requires (open.Some? ==> open.value < |buf|) && pos <= |buf| && Find(buf + rest, SearchFrom(open)) == Some(pos)
    ensures open.Some? ==> open.value <= pos
    ensures units + Pending(open, buf + rest) ==
            (if open.Some? then units + [buf[open.value..pos]] else units) + Pending(Some(pos), buf + rest)
  {
    hide Find, AUD;
    if open.Some? {
      assert (buf + rest)[open.value..pos] == buf[open.value..pos];
    }
  }

  /** Emits every unit completed by the bytes now in the buffer. `rest` is what has not been read yet. */
  method Drain(buf: Bytes, start: Option<nat>, ghost rest: Bytes) returns (units: seq<Bytes>, open: Option<nat>)
    requires start.Some? ==> start.value < |buf|
    ensures open.Some? ==> open.value < |buf|
    ensures Pending(start, buf + rest) == units + Pending(open, buf + rest)
    ensures Find(buf, SearchFrom(open)).None?
  {
    hide Find, Cut, Units, AUD, Pending;
    units, open := [], start;
    var done := false;
    assert [] + Pending(start, buf + rest) == Pending(start, buf + rest);
    while !done
      invariant open.Some? ==> open.value < |buf|
      invariant Pending(start, buf + rest) == units + Pending(open, buf + rest)
      invariant done ==> Find(buf, SearchFrom(open)).None?
      decreases |buf| - SearchFrom(open) + 1, !done
    {
      var from := SearchFrom(open);
      if from + 5 > |buf| {
        TooShort(buf, from);
        done := true;
      } else {
        var pos := Search(buf, from);
        if pos.None? {
          done := true;
        } else {
          FindExtends(buf, rest, from);
          PendingStep(buf, rest, open, pos.value, units);
          if open.Some? {
            units := units + [buf[open.value..pos.value]];
          }
          open := pos;
        }
      }
    }
  }

  function Stream(pieces: seq<Bytes>): Bytes
  {
    if pieces == [] then [] else pieces[0] + Stream(pieces[1..])
  }

  /** However the stream is cut into pieces, the callbacks get the cut of the whole. */
  method ReadLoop(pieces: seq<Bytes>) returns (frames: seq<Bytes>)
    ensures frames == Cut(Stream(pieces))
  {
    hide Cut, Units, Find;
    frames := [];
    var buf: Bytes := [];
    var start: Option<nat> := None;
    StartsEmpty(Stream(pieces));
    for i := 0 to |pieces|
      invariant start.Some? ==> start.value < |buf|
      invariant Cut(Stream(pieces)) == frames + Pending(start, buf + Stream(pieces[i..]))
      invariant Find(buf, SearchFrom(start)).None?
    {
      ghost var rest := Stream(pieces[i + 1..]);
      ReadNext(buf, pieces, i);
      buf := buf + pieces[i];
      var units;
      units, start := Drain(buf, start, rest);
      AppendUnits(frames, units, Pending(start, buf + rest));
      frames := frames + units;
      if start.Some? && start.value > 0 {
        Erases(buf, start.value, rest);
        buf := buf[start.value..];
        start := Some(0);
      }
    }
    EndsWith(buf, start, pieces);
    if start.Some? && start.value < |buf| {
      frames := frames + [buf[start.value..]];
    }
  }

  lemma StartsEmpty(s: Bytes)
    ensures [] + Pending(None, [] + s) == Cut(s) && Find([], 0).None?
  {}

  lemma ReadNext(buf: Bytes, pieces: seq<Bytes>, i: nat)
    requires i < |pieces|
    ensures buf + Stream(pieces[i..]) == buf + pieces[i] + Stream(pieces[i + 1..])
  {}

  lemma AppendUnits(a: seq<Bytes>, b: seq<Bytes>, c: seq<Bytes>)
    ensures a + (b + c) == a + b + c
  {}

  lemma Erases(buf: Bytes, start: nat, rest: Bytes)
    requires start < |buf|
    ensures Units(buf + rest, start) == Units(buf[start..] + rest, 0)
    ensures Find(buf, start + 1).None? ==> Find(buf[start..], 1).None?
  {
    assert (buf + rest)[start..] == buf[start..] + rest;
    UnitsShift(buf + rest, start, start);
    FindShifts(buf, start, start + 1);
  }

  lemma EndsWith(buf: Bytes, start: Option<nat>, pieces: seq<Bytes>)
    requires (start.Some? ==> start.value < |buf|) && Find(buf, SearchFrom(start)).None?
    ensures Pending(start, buf + Stream(pieces[|pieces|..])) == if start.Some? then [buf[start.value..]] else []
  {
    assert buf + Stream(pieces[|pieces|..]) == buf;
  }
}
