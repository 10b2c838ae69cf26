/**
 A note's two representations, the content column and the collaborative state, through creation,
 loading, storing, version-checked saving, removal and expiry, in any interleaving of transactions.

 The collaborative document is abstract: `text` reads its text and `seed` makes one that holds a
 given text.  A stored state stands for the document it encodes.
 */
module NoteLifecycle {
  import opened Wrappers
  import opened NoteSplice

  datatype Crdt<!S> = Crdt(text: S -> Text, seed: Text -> S)

  ghost predicate SeedsText<S>(y: Crdt<S>) {
    forall t :: y.text(y.seed(t)) == t
  }

  datatype Status = Active | Expired | Deleted

  /** What `remove_room` may set; any status but `active` is the same to every query. */
  type Ended = s: Status | !s.Active? witness Deleted

  datatype RoomRow = RoomRow(status: Status, expiresAt: int)

  datatype ContentRow<S> = ContentRow(content: Option<Text>, state: Option<S>, version: nat)

  /**
   The tables and the clock.  `selected` are the rooms that expiry sweeps have read and not yet handled;
   `removing` those whose removals have changed the status and not yet deleted the content.  Both are
   multisets, since sweeps and removals may overlap.
   */
  datatype Db<S> = Db(
    now: int, rooms: map<string, RoomRow>, contents: map<string, ContentRow<S>>,
    selected: multiset<string>, removing: multiset<string>)

  /** The join condition of every write of content, and what authentication asks for. */
  predicate Live<S>(db: Db<S>, id: string) {
    id in db.rooms && db.rooms[id].status.Active? && db.rooms[id].expiresAt > db.now
  }

  datatype Op<S> =
    | Tick(seconds: nat)
    | Create(id: string, hours: nat, initial: Text)
    | Load(id: string)
    | Store(id: string, document: S)
    | Save(id: string, content: Text, expected: int)
    | RemoveRoom(id: string, status: Ended)
    | RemoveContent(id: string)
    | SweepSelect
    | SweepRoom(id: string)

  /** `create_room`: both rows in one transaction; either unique key refuses it. */
  function CreateRoom<S>(db: Db<S>, id: string, hours: nat, initial: Text): Db<S> {
    if id in db.rooms || id in db.contents then db
    else db.(rooms := db.rooms[id := RoomRow(Active, db.now + 3600 * hours)],
             contents := db.contents[id := ContentRow(Some(initial), None, 0)])
  }

  /** `loadDocument`: the stored state, or a document seeded with the content where they differ. */
  function LoadDocument<S>(y: Crdt<S>, db: Db<S>, id: string): (Db<S>, Option<S>) {
    if id !in db.contents then (db, None)
    else
      var row := db.contents[id];
      var content := row.content.GetOr([]);
      if row.state.Some? && y.text(row.state.value) == content then (db, row.state)
      else
        var document := y.seed(content);
        (db.(contents := db.contents[id := row.(state := Some(document))]), Some(document))
  }

  /** `onStoreDocument`; false is the error that closes the connections. */
  function StoreDocument<S>(y: Crdt<S>, maxLength: nat, db: Db<S>, id: string, document: S): (Db<S>, bool) {
    if |y.text(document)| > maxLength then (db, false)
    else if id !in db.contents || !Live(db, id) then (db, false)
    else
      var row := ContentRow(Some(y.text(document)), Some(document), db.contents[id].version + 1);
      (db.(contents := db.contents[id := row]), true)
  }

  /** `save_content`, which knows nothing of the state; false is a row count of zero. */
  function SaveContent<S>(db: Db<S>, id: string, content: Text, expected: int): (Db<S>, bool) {
    if id !in db.contents || !Live(db, id) || db.contents[id].version != expected then (db, false)
    else
      var row := db.contents[id];
      (db.(contents := db.contents[id := row.(content := Some(content), version := row.version + 1)]), true)
  }

  function WithStatus<S>(db: Db<S>, id: string, status: Status): Db<S> {
    if id in db.rooms then db.(rooms := db.rooms[id := db.rooms[id].(status := status)]) else db
  }

  /** One transaction, one statement of `remove_room`, or one second of the clock. */
  function Step<S>(y: Crdt<S>, maxLength: nat, db: Db<S>, op: Op<S>): Db<S> {
    match op
    case Tick(seconds) => db.(now := db.now + seconds)
    case Create(id, hours, initial) => CreateRoom(db, id, hours, initial)
    case Load(id) => LoadDocument(y, db, id).0
    case Store(id, document) => StoreDocument(y, maxLength, db, id, document).0
    case Save(id, content, expected) => SaveContent(db, id, content, expected).0
    case RemoveRoom(id, status) => WithStatus(db, id, status).(removing := db.removing + multiset{id})
    case RemoveContent(id) =>
      if id !in db.removing then db
      else db.(contents := db.contents - {id}, removing := db.removing - multiset{id})
    case SweepSelect =>
      var due := set id | id in db.rooms && db.rooms[id].status.Active? && db.rooms[id].expiresAt <= db.now;
      db.(selected := db.selected + multiset(due))
    case SweepRoom(id) =>
      if id !in db.selected then db
      else
        var marked := if id in db.rooms && db.rooms[id].status.Active? then WithStatus(db, id, Expired) else db;
        marked.(contents := db.contents - {id}, selected := db.selected - multiset{id})
  }

  function Run<S>(y: Crdt<S>, maxLength: nat, db: Db<S>, ops: seq<Op<S>>): Db<S> {
    if ops == [] then db else Step(y, maxLength, Run(y, maxLength, db, ops[..|ops| - 1]), ops[|ops| - 1])
  }

  // ---------------------------------------------------------------- what every run keeps

  /** Content belongs to a room that was created. */
  ghost predicate Rooted<S>(db: Db<S>) {
    db.contents.Keys <= db.rooms.Keys
  }

  /** How one step may change what is stored for a room that existed before it. */
  ghost predicate Follows<S>(before: Db<S>, after: Db<S>, id: string) {
    && before.now <= after.now
    && (id in before.rooms ==>
          && id in after.rooms && after.rooms[id].expiresAt == before.rooms[id].expiresAt
          && (after.rooms[id].status.Active? ==> before.rooms[id].status.Active?)
          && (id in after.contents ==>
                && id in before.contents
                && before.contents[id].version <= after.contents[id].version
                && (before.contents[id].version == after.contents[id].version ==>
                      after.contents[id].content == before.contents[id].content)
                && (!Live(before, id) ==>
                      && after.contents[id].content == before.contents[id].content
                      && after.contents[id].version == before.contents[id].version)))
  }

  lemma FollowsTransitive<S>(a: Db<S>, b: Db<S>, c: Db<S>, id: string)
    requires Follows(a, b, id) && Follows(b, c, id)
    ensures Follows(a, c, id)
  {
  }

  lemma CreateFollows<S>(db: Db<S>, other: string, hours: nat, initial: Text, id: string)
    requires Rooted(db)
    ensures var after := CreateRoom(db, other, hours, initial); Rooted(after) && Follows(db, after, id)
  {
  }

  lemma LoadFollows<S>(y: Crdt<S>, db: Db<S>, other: string, id: string)
    requires Rooted(db)
    ensures var after := LoadDocument(y, db, other).0; Rooted(after) && Follows(db, after, id)
  {
  }

  lemma StoreFollows<S>(y: Crdt<S>, maxLength: nat, db: Db<S>, other: string, document: S, id: string)
    requires Rooted(db)
    ensures var after := StoreDocument(y, maxLength, db, other, document).0; Rooted(after) && Follows(db, after, id)
  {
  }

  lemma SaveFollows<S>(db: Db<S>, other: string, content: Text, expected: int, id: string)
    requires Rooted(db)
    ensures var after := SaveContent(db, other, content, expected).0; Rooted(after) && Follows(db, after, id)
  {
  }

  lemma StatusFollows<S>(db: Db<S>, other: string, status: Ended, id: string)
    requires Rooted(db)
    ensures var after := WithStatus(db, other, status); Rooted(after) && Follows(db, after, id)
  {
  }

  /** Deleting content, and whatever the sweeps and removals remember. */
  lemma DeletionFollows<S>(db: Db<S>, gone: set<string>, selected: multiset<string>, removing: multiset<string>,
                           id: string)
    requires Rooted(db)
    ensures var after := db.(contents := db.contents - gone, selected := selected, removing := removing);
            Rooted(after) && Follows(db, after, id)
  {
  }

  lemma SweepFollows<S>(y: Crdt<S>, maxLength: nat, db: Db<S>, other: string, id: string)
    requires Rooted(db) && other in db.selected
    ensures var after := Step(y, maxLength, db, SweepRoom(other)); Rooted(after) && Follows(db, after, id)
  {
    var marked := if other in db.rooms && db.rooms[other].status.Active? then WithStatus(db, other, Expired) else db;
    assert marked.contents == db.contents && marked.removing == db.removing && marked.selected == db.selected;
    StatusFollows(db, other, Expired, id);
    hide WithStatus, Rooted, Follows;
    DeletionFollows(marked, {other}, db.selected - multiset{other}, db.removing, id);
    FollowsTransitive(db, marked, Step(y, maxLength, db, SweepRoom(other)), id);
  }

  lemma EndFollows<S>(y: Crdt<S>, maxLength: nat, db: Db<S>, op: Op<S>, id: string)
    requires Rooted(db) && (op.RemoveRoom? || op.RemoveContent? || op.SweepRoom?)
    ensures Rooted(Step(y, maxLength, db, op)) && Follows(db, Step(y, maxLength, db, op), id)
  {
    match op
    case RemoveRoom(other, status) => StatusFollows(db, other, status, id);
    case RemoveContent(other) => DeletionFollows(db, {other}, db.selected, db.removing - multiset{other}, id);
    case SweepRoom(other) => if other in db.selected { SweepFollows(y, maxLength, db, other, id); }
  }

  lemma StepFollows<S>(y: Crdt<S>, maxLength: nat, db: Db<S>, op: Op<S>, id: string)
    requires Rooted(db)
    ensures Rooted(Step(y, maxLength, db, op)) && Follows(db, Step(y, maxLength, db, op), id)
  {
    hide CreateRoom, LoadDocument, StoreDocument, SaveContent;
    match op
    case Create(other, hours, initial) => CreateFollows(db, other, hours, initial, id);
    case Load(other) => LoadFollows(y, db, other, id);
    case Store(other, document) => StoreFollows(y, maxLength, db, other, document, id);
    case Save(other, content, expected) => SaveFollows(db, other, content, expected, id);
    case Tick(_) =>
    case SweepSelect =>
    case _ => EndFollows(y, maxLength, db, op, id);
  }

  /**
   Over every run: a room that is not live never becomes live, its content and version then stay as
   they are until they are deleted for good, versions never decrease, and content changes only
   together with the version.
   */
  lemma {:induction false} RunFollows<S>(y: Crdt<S>, maxLength: nat, db: Db<S>, ops: seq<Op<S>>, id: string)
    requires Rooted(db)
    ensures Rooted(Run(y, maxLength, db, ops)) && Follows(db, Run(y, maxLength, db, ops), id)
    ensures id in db.rooms && !Live(db, id) ==> !Live(Run(y, maxLength, db, ops), id)
  {
    if ops != [] {
      RunFollows(y, maxLength, db, ops[..|ops| - 1], id);
      var mid := Run(y, maxLength, db, ops[..|ops| - 1]);
      StepFollows(y, maxLength, mid, ops[|ops| - 1], id);
      FollowsTransitive(db, mid, Run(y, maxLength, db, ops), id);
    }
  }

  // ---------------------------------------------------------------- birth and end of a room

  /**
   A creation succeeds exactly for an unused id.  The room then holds its initial text at version 0, without a
   state, and is live for exactly so many hours; a refused creation changes nothing.
   */
  lemma CreatedRoom<S>(y: Crdt<S>, maxLength: nat, db: Db<S>, id: string, hours: nat, initial: Text, seconds: nat)
    requires SeedsText(y)
    ensures var after := CreateRoom(db, id, hours, initial);
            if id in db.rooms || id in db.contents then after == db
            else
              && after.contents == db.contents[id := ContentRow(Some(initial), None, 0)]
              && after.rooms.Keys == db.rooms.Keys + {id} && after.rooms - {id} == db.rooms
              && (Live(Step(y, maxLength, after, Tick(seconds)), id) <==> seconds < hours * 60 * 60)
              && var document := LoadDocument(y, after, id).1;
                 document.Some? && y.text(document.value) == initial
  {
    LoadedDocumentIsContent(y, CreateRoom(db, id, hours, initial), id);
  }

  /** A run goes on with its next step from where it is. */
  lemma RunSnoc<S>(y: Crdt<S>, maxLength: nat, db: Db<S>, ops: seq<Op<S>>, op: Op<S>)
    ensures Run(y, maxLength, db, ops + [op]) == Step(y, maxLength, Run(y, maxLength, db, ops), op)
  {
    assert (ops + [op])[..|ops|] == ops;
  }

  /** A run keeps an ended status. */
  lemma {:induction false} EndedStays<S>(y: Crdt<S>, maxLength: nat, db: Db<S>, ops: seq<Op<S>>, id: string)
    requires Rooted(db) && id in db.rooms && db.rooms[id].status != Active
    ensures var after := Run(y, maxLength, db, ops); id in after.rooms && after.rooms[id].status != Active
  {
    RunFollows(y, maxLength, db, ops, id);
  }

  /** After a removal, whatever ran in between and follows, the room has an ended status and is not live. */
  lemma RemovalEnds<S>(y: Crdt<S>, maxLength: nat, db: Db<S>, id: string, status: Ended, ops: seq<Op<S>>)
    requires Rooted(db) && id in db.rooms
    ensures var marked := Step(y, maxLength, db, RemoveRoom(id, status));
            var after := Run(y, maxLength, marked, ops);
            && marked.rooms == db.rooms[id := RoomRow(status, db.rooms[id].expiresAt)] && marked.contents == db.contents
            && marked.selected == db.selected
            && (forall x :: marked.removing[x] == db.removing[x] + if x == id then 1 else 0)
            && id in after.rooms && after.rooms[id].status != Active && !Live(after, id)
  {
    StepFollows(y, maxLength, db, RemoveRoom(id, status), id);
    EndedStays(y, maxLength, Step(y, maxLength, db, RemoveRoom(id, status)), ops, id);
  }

  /** The second statement of a removal that has begun deletes the content, and nothing else. */
  lemma RemovalDeletes<S>(y: Crdt<S>, maxLength: nat, db: Db<S>, id: string)
    ensures var after := Step(y, maxLength, db, RemoveContent(id));
            && after.rooms == db.rooms && after.removing == db.removing - multiset{id}
            && after.contents == (if id in db.removing then db.contents - {id} else db.contents)
  {
  }

  /** A sweep reads exactly the active rooms whose time is over, beside what other sweeps still have to do. */
  lemma SweepReads<S>(y: Crdt<S>, maxLength: nat, db: Db<S>, id: string)
    ensures var after := Step(y, maxLength, db, SweepSelect);
            && after.rooms == db.rooms && after.contents == db.contents && after.removing == db.removing
            && after.selected[id] ==
               (if id in db.rooms && db.rooms[id].status == Active && db.rooms[id].expiresAt <= db.now
                then db.selected[id] + 1 else db.selected[id])
  {
  }

  /** The step for a room that a sweep has read ends it and deletes its content, and touches no other room. */
  lemma SweepEnds<S>(y: Crdt<S>, maxLength: nat, db: Db<S>, id: string)
    ensures var after := Step(y, maxLength, db, SweepRoom(id));
            if id !in db.selected then after == db
            else
              && after.rooms.Keys == db.rooms.Keys && after.rooms - {id} == db.rooms - {id}
              && after.contents == db.contents - {id} && after.selected == db.selected - multiset{id}
              && after.removing == db.removing
              && (id in db.rooms ==>
                    && after.rooms[id].expiresAt == db.rooms[id].expiresAt
                    && after.rooms[id].status == if db.rooms[id].status == Active then Expired else db.rooms[id].status)
  {
  }

  // ---------------------------------------------------------------- the two representations

  /** The stored state, where there is one, reads as the content column. */
  ghost predicate InStep<S>(y: Crdt<S>, row: ContentRow<S>) {
    row.state.Some? && y.text(row.state.value) == row.content.GetOr([])
  }

  /**
   A load succeeds exactly when the row exists.  The document it returns reads as the content column
   and is the stored state afterwards; content and version stay as they were, and a state that
   already agrees is kept, so no editing history is thrown away.
   */
  lemma LoadedDocumentIsContent<S>(y: Crdt<S>, db: Db<S>, id: string)
    requires SeedsText(y)
    ensures var (after, document) := LoadDocument(y, db, id);
            && (document.Some? <==> id in db.contents)
            && (document.Some? ==>
                  && y.text(document.value) == db.contents[id].content.GetOr([])
                  && id in after.contents && after.contents[id].state == document && InStep(y, after.contents[id])
                  && after.contents[id].content == db.contents[id].content
                  && after.contents[id].version == db.contents[id].version
                  && (InStep(y, db.contents[id]) ==> after == db))
            && (forall other | other != id && other in db.contents ::
                  other in after.contents && after.contents[other] == db.contents[other])
  {
  }

  /** A store succeeds exactly on a live room within the limit, and leaves both representations in step. */
  lemma StoredDocumentIsContent<S>(y: Crdt<S>, maxLength: nat, db: Db<S>, id: string, document: S)
    ensures var (after, ok) := StoreDocument(y, maxLength, db, id, document);
            && (ok <==>
                  && |y.text(document)| <= maxLength && id in db.contents && id in db.rooms
                  && db.rooms[id].status == Active && db.rooms[id].expiresAt > db.now)
            && (!ok ==> after == db)
            && (ok ==> after == db.(contents := after.contents) && after.contents.Keys == db.contents.Keys
                       && InStep(y, after.contents[id]) && after.contents[id].content == Some(y.text(document))
                       && after.contents[id].version == db.contents[id].version + 1
                       && after.contents - {id} == db.contents - {id})
  {
  }

  /**
   A version-checked save succeeds exactly on a live room whose content still has the expected version; it
   then writes the text and one more version, and leaves the state as it was.
   */
  lemma SavedContent<S>(db: Db<S>, id: string, content: Text, expected: int)
    ensures var (after, ok) := SaveContent(db, id, content, expected);
            && (ok <==>
                  && id in db.contents && db.contents[id].version == expected && id in db.rooms
                  && db.rooms[id].status == Active && db.rooms[id].expiresAt > db.now)
            && (!ok ==> after == db)
            && (ok ==>
                  var row := ContentRow(Some(content), db.contents[id].state, db.contents[id].version + 1);
                  after == db.(contents := db.contents[id := row]))
  {
  }

  /**
   A document loaded, and stored unedited after any run: a store that succeeds leaves the text of the
   load, so it keeps the text it meets exactly when that is still the same, as it is when the version has
   not moved.
   */
  lemma UneditedStoreKeepsIff<S>(y: Crdt<S>, maxLength: nat, db: Db<S>, id: string, ops: seq<Op<S>>)
    requires SeedsText(y) && Rooted(db) && id in db.contents
    ensures var (loaded, document) := LoadDocument(y, db, id);
            var met := Run(y, maxLength, loaded, ops);
            var (stored, ok) := StoreDocument(y, maxLength, met, id, document.value);
            ok ==>
              && id in met.contents && TextOf(stored, id) == TextOf(db, id)
              && (TextOf(stored, id) == TextOf(met, id) <==> TextOf(met, id) == TextOf(loaded, id))
              && (met.contents[id].version == db.contents[id].version ==> TextOf(stored, id) == TextOf(met, id))
  {
    var (loaded, document) := LoadDocument(y, db, id);
    LoadedDocumentIsContent(y, db, id);
    RunFollows(y, maxLength, loaded, ops, id);
  }

  function TextOf<S>(db: Db<S>, id: string): Text {
    if id in db.contents then db.contents[id].content.GetOr([]) else []
  }

  /**
   The store checks no version: when a version-checked save succeeds between the load and the unedited
   store, both succeed, and the saved text is lost whenever it is another one.
   */
  lemma StoreOverwritesSave<S>(y: Crdt<S>, maxLength: nat, db: Db<S>, id: string, content: Text)
    requires SeedsText(y) && id in db.contents && Live(db, id) && |TextOf(db, id)| <= maxLength
    ensures var (loaded, document) := LoadDocument(y, db, id);
            var (saved, saveOk) := SaveContent(loaded, id, content, loaded.contents[id].version);
            var (stored, storeOk) := StoreDocument(y, maxLength, saved, id, document.value);
            && saveOk && TextOf(saved, id) == content
            && storeOk && TextOf(stored, id) == TextOf(db, id)
            && (content != TextOf(db, id) ==> TextOf(stored, id) != TextOf(saved, id))
  {
    LoadedDocumentIsContent(y, db, id);
  }

  /**
   A version-checked save that succeeds replaces exactly what its client had read: after any run from
   the state in which the client saw version and content, success means the content is still that.
   */
  lemma SaveReplacesWhatWasRead<S>(y: Crdt<S>, maxLength: nat, read: Db<S>, id: string, ops: seq<Op<S>>, content: Text)
    requires Rooted(read) && id in read.contents
    ensures var db := Run(y, maxLength, read, ops);
            var (after, ok) := SaveContent(db, id, content, read.contents[id].version);
            && (ok ==> id in db.contents && db.contents[id].content == read.contents[id].content)
            && (ok ==> after.contents[id].content == Some(content)
                       && after.contents[id].version == read.contents[id].version + 1)
            && (ok ==> Live(read, id))
  {
    RunFollows(y, maxLength, read, ops, id);
  }

  // ---------------------------------------------------------------- the tables

  /** The note tables, changed in place; each method is proved against its transaction above. */
  class NoteTables<S> {
    const y: Crdt<S>
    const maxLength: nat
    var now: int
    var rooms: map<string, RoomRow>
    var contents: map<string, ContentRow<S>>

    function State(): Db<S>
      reads this
    {
      Db(now, rooms, contents, multiset{}, multiset{})
    }

    constructor (y: Crdt<S>, maxLength: nat, now: int)
      ensures this.y == y && this.maxLength == maxLength && State() == Db(now, map[], map[], multiset{}, multiset{})
    {
      this.y, this.maxLength, this.now, rooms, contents := y, maxLength, now, map[], map[];
    }

    method NewRoom(id: string, hours: nat, initial: Text)
      modifies this
      ensures State() == CreateRoom(old(State()), id, hours, initial)
    {
      if id in rooms || id in contents {
        return;
      }
      rooms := rooms[id := RoomRow(Active, now + 3600 * hours)];
      contents := contents[id := ContentRow(Some(initial), None, 0)];
    }

    method OnLoadDocument(id: string) returns (document: Option<S>)
      modifies this
      ensures (State(), document) == LoadDocument(y, old(State()), id)
    {
      if id !in contents {
        return None;
      }
      var row := contents[id];
      var shouldPersist := true;
      if row.state.Some? {
        document := row.state;
        shouldPersist := y.text(row.state.value) != row.content.GetOr([]);
      }
      if shouldPersist {
        document := Some(y.seed(row.content.GetOr([])));
        contents := contents[id := row.(state := document)];
      }
    }

    method OnStoreDocument(id: string, document: S) returns (ok: bool)
      modifies this
      ensures (State(), ok) == StoreDocument(y, maxLength, old(State()), id, document)
    {
      var content := y.text(document);
      if |content| > maxLength {
        return false;
      }
      if !(id in contents && Live(State(), id)) {
        return false;
      }
      contents := contents[id := ContentRow(Some(content), Some(document), contents[id].version + 1)];
      return true;
    }

    method SaveNote(id: string, content: Text, expected: int) returns (ok: bool)
      modifies this
      ensures (State(), ok) == SaveContent(old(State()), id, content, expected)
    {
      if !(id in contents && contents[id].version == expected && Live(State(), id)) {
        return false;
      }
      contents := contents[id := contents[id].(content := Some(content), version := contents[id].version + 1)];
      return true;
    }

    /** Both statements of `remove_room`, with nothing in between. */
    method RemoveNoteRoom(id: string, status: Ended)
      modifies this
      ensures var marked := Step(y, maxLength, old(State()), Op<S>.RemoveRoom(id, status));
              State() == Step(y, maxLength, marked, Op<S>.RemoveContent(id))
    {
      if id in rooms {
        rooms := rooms[id := rooms[id].(status := status)];
      }
      contents := contents - {id};
    }

    /** `remove_expired_rooms`: the selected rooms one after the other. */
    method RemoveExpiredRooms() returns (removed: set<string>)
      modifies this
      ensures removed == set id | id in old(rooms) && old(rooms)[id].status.Active? && old(rooms)[id].expiresAt <= now
      ensures now == old(now) && rooms.Keys == old(rooms).Keys && contents == old(contents) - removed
      ensures forall id | id in rooms ::
                rooms[id] == if id in removed then old(rooms)[id].(status := Expired) else old(rooms)[id]
    {
      var rows := set id | id in rooms && rooms[id].status.Active? && rooms[id].expiresAt <= now;
      removed := {};
      var todo := rows;
      while todo != {}
        invariant todo !! removed && todo + removed == rows
        invariant now == old(now) && rooms.Keys == old(rooms).Keys && contents == old(contents) - removed
        invariant forall id | id in rooms ::
                    rooms[id] == if id in removed then old(rooms)[id].(status := Expired) else old(rooms)[id]
        decreases todo
      {
        var id :| id in todo;
        if id in rooms && rooms[id].status.Active? {
          rooms := rooms[id := rooms[id].(status := Expired)];
        }
        contents := contents - {id};
        removed, todo := removed + {id}, todo - {id};
      }
    }
  }
}
