/**
 * The `change` handler: it switches on the event's type, builds one point
 * for edit, new, log and categorize events, and hands it to the client as a
 * one-point batch; any other type is dropped. The model returns the batch
 * that would be written, empty when nothing is written.
 */
module ChangeHandler {
  import opened UriEncoding
  import opened RecentChange
  import opened InfluxPoint
  import opened PointMappers

  /** The event types the handler writes a point for. */
  predicate Recognised(changeType: string) {
    changeType in {"edit", "new", "log", "categorize"}
  }

  /** The four recognised type names are written unchanged by encodeURI. */
  lemma RecognisedTypesUnescaped(changeType: string)
    requires Recognised(changeType)
    ensures AllUnescaped(changeType)
  {
    forall i | 0 <= i < |changeType| ensures Unescaped(changeType[i]) {
      assert 'a' <= changeType[i] <= 'z';
    }
  }

  /** The batch the handler writes for one change: a single point for a
      recognised type, with its type tag the quoted type name, and nothing
      otherwise. */
  function Handle(c: Change): (batch: seq<Point>)
    ensures |batch| == (if Recognised(c.changeType) then 1 else 0)
    ensures forall p | p in batch :: p.measurement == "event"
    ensures forall p | p in batch :: Type in p.tags && p.tags[Type] == Str(Quote(c.changeType))
  {
    if Recognised(c.changeType) then
      RecognisedTypesUnescaped(c.changeType);
      TextValueOfUnescaped(c.changeType);
      var w := Convert(c);
      TypeTagOf(w);
      if c.changeType == "edit" then [EditPoint(c)]
      else if c.changeType == "new" then [EditPoint(c)]
      else if c.changeType == "log" then [LogPoint(c)]
      else [EventPoint(c)]
    else []
  }

  /** Which mapper each recognised type goes to. */
  lemma Dispatch(c: Change)
    ensures c.changeType in {"edit", "new"} ==> Handle(c) == [EditPoint(c)]
    ensures c.changeType == "log" ==> Handle(c) == [LogPoint(c)]
    ensures c.changeType == "categorize" ==> Handle(c) == [EventPoint(c)]
    ensures !Recognised(c.changeType) ==> Handle(c) == []
  {
  }

  /** Every point the handler writes has its text safely quoted and matches
      the declared schema. */
  lemma HandledPointsAreSafe(c: Change)
    ensures forall p | p in Handle(c) :: Escaped(p) && ConformsToSchema(p)
  {
    Dispatch(c);
    if Recognised(c.changeType) {
      var p := Handle(c)[0];
      assert p == EditPoint(c) || p == EventPoint(c) || p == LogPoint(c);
      MappedPointsAreSafe(c, p);
      assert Handle(c) == [p];
    }
  }

  // ---------------------------------------------------------------------------
  // A stream of changes
  // ---------------------------------------------------------------------------

  function CountRecognised(cs: seq<Change>): nat {
    if cs == [] then 0
    else (if Recognised(cs[0].changeType) then 1 else 0) + CountRecognised(cs[1..])
  }

  /** The writePoints calls one change causes: none when its batch is empty. */
  function WritesFor(c: Change): (ws: seq<seq<Point>>)
    ensures |ws| == (if Recognised(c.changeType) then 1 else 0)
    ensures forall i | 0 <= i < |ws| :: ws[i] == Handle(c)
  {
    var batch := Handle(c);
    if batch == [] then [] else [batch]
  }

  /** The writes the handler issues for changes arriving in order: one
      one-point batch per recognised change, nothing for the others, and no
      batching across changes. */
  function Writes(cs: seq<Change>): (ws: seq<seq<Point>>)
    ensures |ws| == CountRecognised(cs) <= |cs|
    ensures forall i | 0 <= i < |ws| :: |ws[i]| == 1 && ws[i][0].measurement == "event"
  {
    if cs == [] then [] else WritesFor(cs[0]) + Writes(cs[1..])
  }

  /** Writes follow the order of arrival: the writes for a stream are those of
      its first part followed by those of the rest. */
  lemma {:induction false} WritesAppend(a: seq<Change>, b: seq<Change>)
    ensures Writes(a + b) == Writes(a) + Writes(b)
  {
    if a != [] {
      assert (a + b)[0] == a[0] && (a + b)[1..] == a[1..] + b;
      WritesAppend(a[1..], b);
    } else {
      assert a + b == b;
    }
  }

  /** The writes for a single change. */
  lemma WritesOne(c: Change)
    ensures Writes([c]) == if Recognised(c.changeType) then [Handle(c)] else []
  {
    assert [c][1..] == [];
  }

  /** A change of an unrecognised type leaves the writes of a stream as they
      would be without it. */
  lemma UnrecognisedIsDropped(a: seq<Change>, c: Change, b: seq<Change>)
    requires !Recognised(c.changeType)
    ensures Writes(a + [c] + b) == Writes(a + b)
  {
    WritesAppend(a + [c], b);
    WritesAppend(a, [c]);
    WritesAppend(a, b);
    WritesOne(c);
  }

  /** When every change is of a recognised type, the i-th write is the batch
      for the i-th change: nothing is merged, reordered or held back. */
  lemma {:induction false} WritesOfRecognised(cs: seq<Change>)
    requires forall i | 0 <= i < |cs| :: Recognised(cs[i].changeType)
    ensures |Writes(cs)| == |cs|
    ensures forall i | 0 <= i < |cs| :: Writes(cs)[i] == Handle(cs[i])
  {
    if cs != [] {
      var tail := cs[1..];
      WritesOfRecognised(tail);
      assert |WritesFor(cs[0])| == 1;
      forall i | 1 <= i < |cs| ensures Writes(cs)[i] == Handle(cs[i]) {
        assert Writes(cs)[i] == Writes(tail)[i - 1] && tail[i - 1] == cs[i];
      }
    }
  }
}
