/** The RouteChat reader of the example server: a history of notes, and what is written back. */
module RouteChat {
  import opened Wire
  import opened Messages

  /** A message of type RouteNote. */
  type Note = v: Value | Typed(ROUTE_NOTE, v) witness Value([NoMsg, StrV([])], [])

  datatype Place = Place(latitude: int32, longitude: int32)

  /** The coordinates by the accessors: a note without a location has those of the default instance. */
  function Location(n: Note): Place {
    assert FieldTyped(Msg(POINT), n.fields[0]);
    match n.fields[0]
    case NoMsg => Place(0, 0)
    case MsgV(point) =>
      assert Typed(POINT, point) && POINT.kinds[0] == Int32 && POINT.kinds[1] == Int32;
      assert FieldTyped(Int32, point.fields[0]) && FieldTyped(Int32, point.fields[1]);
      Place(point.fields[0].i, point.fields[1].i)
  }

  /** The location that the accessor answers: the default message if there is none. */
  function LocationFields(n: Note): seq<Field> {
    assert FieldTyped(Msg(POINT), n.fields[0]);
    Current(POINT, n.fields[0]).fields
  }

  /** The fields of that message, latitude first. */
  lemma LocationIs(n: Note)
    ensures LocationFields(n) == [IntV(Location(n).latitude), IntV(Location(n).longitude)]
  {
    assert FieldTyped(Msg(POINT), n.fields[0]);
    var point := Current(POINT, n.fields[0]);
    assert POINT.kinds[0] == Int32 && POINT.kinds[1] == Int32;
    assert FieldTyped(Int32, point.fields[0]) && FieldTyped(Int32, point.fields[1]);
  }

  /** Two notes are at one place exactly if both coordinates of their locations agree. */
  lemma SamePlace(n: Note, m: Note)
    ensures Location(n) == Location(m) <==> LocationFields(n) == LocationFields(m)
  {
    hide Location, LocationFields;
    LocationIs(n);
    LocationIs(m);
    var p, q := Location(n), Location(m);
    assert LocationFields(n)[0] == IntV(p.latitude) && LocationFields(n)[1] == IntV(p.longitude);
    assert LocationFields(m)[0] == IntV(q.latitude) && LocationFields(m)[1] == IntV(q.longitude);
  }

  /** The earlier notes at a place, in the order they came. */
  function At(notes: seq<Note>, p: Place): seq<Note> {
    if notes == [] then []
    else At(notes[..|notes| - 1], p)
         + if Location(notes[|notes| - 1]) == p then [notes[|notes| - 1]] else []
  }

  /** All that is written for a run of notes. */
  function Writes(notes: seq<Note>): seq<Note> {
    if notes == [] then []
    else
      var before := notes[..|notes| - 1];
      Writes(before) + At(before, Location(notes[|notes| - 1]))
  }

  class Writer {
    var written: seq<Note>

    constructor ()
      ensures written == []
    {
      written := [];
    }

    method Write(n: Note)
      modifies this
      ensures written == old(written) + [n]
    {
      written := written + [n];
    }
  }

  class Reader {
    const writer: Writer
    var receivedNotes: seq<Note>

    constructor (w: Writer)
      ensures receivedNotes == [] && writer == w
    {
      receivedNotes := [];
      writer := w;
    }

    method OnMsg(msg: Note)
      modifies this, writer
      ensures receivedNotes == old(receivedNotes) + [msg]
      ensures writer.written == old(writer.written) + At(old(receivedNotes), Location(msg))
    {
      assert receivedNotes[..|receivedNotes|] == receivedNotes;
      for i := 0 to |receivedNotes|
        invariant receivedNotes == old(receivedNotes)
        invariant writer.written == old(writer.written) + At(receivedNotes[..i], Location(msg))
      {
        var n := receivedNotes[i];
        assert receivedNotes[..i + 1][..i] == receivedNotes[..i];
        var p, q := Location(n), Location(msg);
        if p.latitude == q.latitude && p.longitude == q.longitude {
          writer.Write(n);
        }
      }
      receivedNotes := receivedNotes + [msg];
    }
  }

  /** A whole stream of notes. */
  method Chat(notes: seq<Note>) returns (written: seq<Note>)
    ensures written == Writes(notes)
  {
    var writer := new Writer();
    var reader := new Reader(writer);
    assert notes[..|notes|] == notes;
    for i := 0 to |notes|
      invariant reader.writer == writer && reader.receivedNotes == notes[..i]
      invariant writer.written == Writes(notes[..i])
    {
      assert notes[..i + 1][..i] == notes[..i];
      reader.OnMsg(notes[i]);
    }
    written := writer.written;
  }

  // ------------------------------------------------------- what is written

  /** A write answers note `late` with note `early`. */
  datatype Answer = Answer(late: nat, early: nat) {
    predicate Before(a: Answer) {
      late < a.late || (late == a.late && early < a.early)
    }
  }

  ghost predicate Justified(notes: seq<Note>, a: Answer) {
    a.early < a.late < |notes| && LocationFields(notes[a.early]) == LocationFields(notes[a.late])
  }

  /** The answers behind the writes: in order, all that are justified, and no other. */
  ghost predicate Answers(notes: seq<Note>, answers: seq<Answer>, writes: seq<Note>) {
    && |answers| == |writes|
    && (forall k | 0 <= k < |answers| :: Justified(notes, answers[k]) && writes[k] == notes[answers[k].early])
    && (forall k, l | 0 <= k < l < |answers| :: answers[k].Before(answers[l]))
    && (forall a | Justified(notes, a) :: a in answers)
  }

  /** The places of a history where the notes of one location stand. */
  ghost predicate Indices(notes: seq<Note>, p: Place, indices: seq<nat>) {
    && |indices| == |At(notes, p)|
    && (forall k | 0 <= k < |indices| ::
          indices[k] < |notes| && Location(notes[indices[k]]) == p && At(notes, p)[k] == notes[indices[k]])
    && (forall k, l | 0 <= k < l < |indices| :: indices[k] < indices[l])
    && (forall i | 0 <= i < |notes| && Location(notes[i]) == p :: i in indices)
  }

  lemma AtOneMore(notes: seq<Note>, p: Place)
    requires notes != []
    ensures var n := |notes| - 1;
            At(notes, p) == At(notes[..n], p) + if Location(notes[n]) == p then [notes[n]] else []
  {
    hide Location;
  }

  /** One more note stands at its own place and changes no other. */
  lemma IndicesOneMore(notes: seq<Note>, p: Place, indices: seq<nat>)
    requires notes != [] && Indices(notes[..|notes| - 1], p, indices)
    ensures var n := |notes| - 1;
            Indices(notes, p, if Location(notes[n]) == p then indices + [n] else indices)
  {
    hide At, Location;
    AtOneMore(notes, p);
    var n := |notes| - 1;
    var before := notes[..n];
    var all := if Location(notes[n]) == p then indices + [n] else indices;
    forall k | 0 <= k < |all|
      ensures all[k] < |notes| && Location(notes[all[k]]) == p && At(notes, p)[k] == notes[all[k]]
    {
      if k < |indices| {
        assert all[k] == indices[k] && before[indices[k]] == notes[indices[k]];
      }
    }
    forall i | 0 <= i < |notes| && Location(notes[i]) == p
      ensures i in all
    {
      if i < n {
        assert Location(before[i]) == p;
        var k :| 0 <= k < |indices| && indices[k] == i;
        assert all[k] == i;
      } else {
        assert all[|indices|] == n;
      }
    }
  }

  lemma {:induction false} AtIndices(notes: seq<Note>, p: Place) returns (indices: seq<nat>)
    ensures Indices(notes, p, indices)
  {
    indices := [];
    if notes != [] {
      hide Indices, At, Location;
      var n := |notes| - 1;
      indices := AtIndices(notes[..n], p);
      IndicesOneMore(notes, p, indices);
      if Location(notes[n]) == p {
        indices := indices + [n];
      }
    }
  }

  function AnswersTo(late: nat, indices: seq<nat>): seq<Answer> {
    seq(|indices|, k requires 0 <= k < |indices| => Answer(late, indices[k]))
  }

  /** The answers to one more note, after all the others. */
  lemma OneMoreNote(notes: seq<Note>, n: nat, answers: seq<Answer>, writes: seq<Note>, indices: seq<nat>)
    requires |notes| == n + 1
    requires Answers(notes[..n], answers, writes) && Indices(notes[..n], Location(notes[n]), indices)
    ensures Answers(notes, answers + AnswersTo(n, indices), writes + At(notes[..n], Location(notes[n])))
  {
    hide At, Location, LocationFields;
    var before, p, late := notes[..n], Location(notes[n]), AnswersTo(n, indices);
    var all, written := answers + late, writes + At(before, p);
    assert |late| == |At(before, p)|;
    forall k | 0 <= k < |all|
      ensures Justified(notes, all[k]) && written[k] == notes[all[k].early]
      ensures k < |answers| ==> all[k].late < n
      ensures k >= |answers| ==> all[k] == Answer(n, indices[k - |answers|])
    {
      if k < |answers| {
        assert all[k] == answers[k] && Justified(before, answers[k]);
      } else {
        assert all[k] == late[k - |answers|];
        SamePlace(before[indices[k - |answers|]], notes[n]);
      }
    }
    forall k, l | 0 <= k < l < |all|
      ensures all[k].Before(all[l])
    {
      if l < |answers| {
        assert answers[k].Before(answers[l]);
      }
    }
    forall a | Justified(notes, a)
      ensures a in all
    {
      AnswerIn(notes, n, answers, writes, indices, a);
    }
  }

  lemma AnswerIn(notes: seq<Note>, n: nat, answers: seq<Answer>, writes: seq<Note>, indices: seq<nat>, a: Answer)
    requires |notes| == n + 1
    requires Answers(notes[..n], answers, writes) && Indices(notes[..n], Location(notes[n]), indices)
    requires Justified(notes, a)
    ensures a in answers + AnswersTo(n, indices)
  {
    hide At, Location, LocationFields;
    var before := notes[..n];
    if a.late == n {
      SamePlace(before[a.early], notes[n]);
      assert Location(before[a.early]) == Location(notes[n]);
      var k :| 0 <= k < |indices| && indices[k] == a.early;
      assert AnswersTo(n, indices)[k] == a;
    } else {
      assert Justified(before, a);
    }
  }

  /**
   Message by message, every write is one earlier note with the same coordinates, in the
   order the notes came, and none is missing.
   */
  lemma {:induction false} WritesAreAnswers(notes: seq<Note>) returns (answers: seq<Answer>)
    ensures Answers(notes, answers, Writes(notes))
  {
    answers := [];
    if notes != [] {
      hide Answers, Indices, At;
      var n := |notes| - 1;
      var before := WritesAreAnswers(notes[..n]);
      var indices := AtIndices(notes[..n], Location(notes[n]));
      OneMoreNote(notes, n, before, Writes(notes[..n]), indices);
      answers := before + AnswersTo(n, indices);
    }
  }

  // ------------------------------------------------------------ how many

  function Count(notes: seq<Note>, p: Place): nat {
    |At(notes, p)|
  }

  /** The places of the notes, each once. */
  function Places(notes: seq<Note>): seq<Place> {
    if notes == [] then []
    else
      var places := Places(notes[..|notes| - 1]);
      var p := Location(notes[|notes| - 1]);
      if p in places then places else places + [p]
  }

  function Pairs(k: nat): nat {
    k * (k - 1) / 2
  }

  function SumOfPairs(notes: seq<Note>, places: seq<Place>): nat {
    if places == [] then 0 else Pairs(Count(notes, places[0])) + SumOfPairs(notes, places[1..])
  }

  ghost predicate Once(places: seq<Place>) {
    forall i, j | 0 <= i < j < |places| :: places[i] != places[j]
  }

  lemma OnceMore(places: seq<Place>, p: Place)
    requires Once(places) && p !in places
    ensures Once(places + [p])
  {
  }

  lemma {:induction false} PlacesOnce(notes: seq<Note>)
    ensures Once(Places(notes))
    ensures forall p :: p in Places(notes) <==> Count(notes, p) > 0
  {
    hide Once, Count, At, Location;
    if notes != [] {
      var before, p := notes[..|notes| - 1], Location(notes[|notes| - 1]);
      PlacesOnce(before);
      if p !in Places(before) {
        OnceMore(Places(before), p);
      }
      forall q
        ensures q in Places(notes) <==> Count(notes, q) > 0
      {
        CountOneMore(notes, q);
      }
    } else {
      NothingAtAll();
    }
  }

  lemma NothingAtAll()
    ensures Once([]) && forall p :: Count([], p) == 0
  {
  }

  lemma CountOneMore(notes: seq<Note>, p: Place)
    requires notes != []
    ensures var n := |notes| - 1;
            Count(notes, p) == Count(notes[..n], p) + if Location(notes[n]) == p then 1 else 0
  {
  }

  lemma PairsOneMore(k: nat)
    ensures Pairs(k + 1) == Pairs(k) + k && Pairs(0) == 0
  {
    assert (k + 1) * k == k * (k - 1) + 2 * k;
  }

  /** One note more adds to the pairs of its place as many as there were. */
  lemma {:induction false} SumOneMore(notes: seq<Note>, places: seq<Place>)
    requires notes != [] && Once(places)
    ensures var n := |notes| - 1;
            var p := Location(notes[n]);
            SumOfPairs(notes, places)
            == SumOfPairs(notes[..n], places) + if p in places then Count(notes[..n], p) else 0
  {
    if places != [] {
      var n := |notes| - 1;
      hide Count, Pairs;
      SumOneMore(notes, places[1..]);
      CountOneMore(notes, places[0]);
      PairsOneMore(Count(notes[..n], places[0]));
      assert forall p | p in places[1..] :: p != places[0];
    }
  }

  lemma {:induction false} SumAppend(notes: seq<Note>, places: seq<Place>, p: Place)
    ensures SumOfPairs(notes, places + [p]) == SumOfPairs(notes, places) + Pairs(Count(notes, p))
  {
    hide Count, Pairs;
    if places == [] {
      assert places + [p] == [p];
      assert SumOfPairs(notes, []) == 0;
    } else {
      assert (places + [p])[1..] == places[1..] + [p];
      SumAppend(notes, places[1..], p);
    }
  }

  /** With k notes at a place, k(k-1)/2 writes are due to it. */
  lemma {:induction false} TotalWrites(notes: seq<Note>)
    ensures |Writes(notes)| == SumOfPairs(notes, Places(notes))
  {
    hide Count, Pairs, At, Location;
    if notes != [] {
      var n := |notes| - 1;
      var before, p := notes[..n], Location(notes[n]);
      var places := Places(before);
      TotalWrites(before);
      PlacesOnce(before);
      SumOneMore(notes, places);
      CountIsAt(before, p);
      if p !in places {
        SumAppend(notes, places, p);
        CountOneMore(notes, p);
        PairsOneMore(0);
      }
    }
  }

  lemma CountIsAt(notes: seq<Note>, p: Place)
    ensures Count(notes, p) == |At(notes, p)|
  {
  }
}
