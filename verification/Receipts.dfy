/** Read and delivery receipts: the per-message path, the batch path, and how they relate. */
module Receipts {
  import opened Wrappers

  type Id = string

  const GRACE := 24 * 60 * 60 * 1000
  const BATCH_MAX := 100

  datatype Status = Read | Delivered

  /** A stored message; the sender is already unsealed, None for a sealed 1:1 sender. */
  datatype Message = Message(sender: Option<Id>, isGroup: bool, expiresAt: Option<int>)

  datatype Row = Row(status: Status, updatedAt: int)

  /** Status rows are keyed by message and reader. */
  datatype Db = Db(messages: map<Id, Message>, statuses: map<(Id, Id), Row>)

  /** What the handlers are given: who reports what, and the one clock reading. */
  datatype Receipt = Receipt(user: Id, conversation: Id, status: Status, pseudonym: Option<Id>, now: int)

  /** Code outside this model: the opaque reader tag of a conversation, and the coarse clock. */
  datatype Env = Env(tag: (Id, Id) -> Id, bucket: int -> int)

  // ---------------------------------------------------------------------------------------------
  // Shared pieces.

  /** The identity stored for the reader. */
  function Reader(env: Env, r: Receipt, isGroup: bool): Id {
    if isGroup && r.pseudonym.Some? && r.pseudonym.value != "" then r.pseudonym.value
    else env.tag(r.conversation, r.user)
  }

  /** The reporter sent the message, under either identity. */
  predicate Own(r: Receipt, m: Message) {
    m.sender.Some? && (m.sender.value == r.user || m.sender == r.pseudonym)
  }

  predicate WasRead(db: Db, id: Id, reader: Id) {
    (id, reader) in db.statuses && db.statuses[(id, reader)].status == Read
  }

  /** The grace period only ever shortens an expiry. */
  function Narrow(expiry: Option<int>, now: int): Option<int> {
    if expiry == None || expiry.value > now + GRACE then Some(now + GRACE) else expiry
  }

  function Armed(m: Message, now: int): Message {
    m.(expiresAt := Narrow(m.expiresAt, now))
  }

  // ---------------------------------------------------------------------------------------------
  // The per-message path.

  predicate Touches(db: Db, r: Receipt, id: Id) {
    r.conversation != "" && id != "" && id in db.messages && !Own(r, db.messages[id])
  }

  /** The message after its own receipt. */
  function MessageAfter(db: Db, env: Env, r: Receipt, id: Id): Message
    requires id in db.messages
  {
    var m := db.messages[id];
    if Touches(db, r, id) && r.status == Read && !m.isGroup && !WasRead(db, id, Reader(env, r, m.isGroup))
    then Armed(m, r.now) else m
  }

  function Single(db: Db, env: Env, r: Receipt, id: Id): Db {
    if !Touches(db, r, id) then db
    else
      var row := Row(r.status, env.bucket(r.now));
      Db(db.messages[id := MessageAfter(db, env, r, id)],
         db.statuses[(id, Reader(env, r, db.messages[id].isGroup)) := row])
  }

  /** One receipt after another. */
  function SingleAll(db: Db, env: Env, r: Receipt, order: seq<Id>): Db {
    if order == [] then db
    else Single(SingleAll(db, env, r, order[..|order| - 1]), env, r, order[|order| - 1])
  }

  // ---------------------------------------------------------------------------------------------
  // The batch path.

  /** The non-empty ids in order of first occurrence. */
  function Unique(ids: seq<Id>): seq<Id> {
    if ids == [] then []
    else
      var init, last := Unique(ids[..|ids| - 1]), ids[|ids| - 1];
      if last == "" || last in init then init else init + [last]
  }

  function Kept(ids: seq<Id>): seq<Id> {
    var all := Unique(ids);
    if |all| <= BATCH_MAX then all else all[..BATCH_MAX]
  }

  predicate Distinct(ids: seq<Id>) {
    forall i, j | 0 <= i < j < |ids| :: ids[i] != ids[j]
  }

  /** The rows a query for these ids returns: the stored ones, in some order. */
  ghost predicate FoundFor(db: Db, ids: seq<Id>, found: seq<Id>) {
    Distinct(found) && forall id :: id in found <==> id in ids && id in db.messages
  }

  /** Candidates for the single expiry update. */
  predicate Candidate(db: Db, r: Receipt, reader: Id, id: Id)
    requires id in db.messages
  {
    var m := db.messages[id];
    m.sender != Some(r.user) && !m.isGroup && !WasRead(db, id, reader)
  }

  /** What the batch path leaves behind for the rows found. */
  function Batch(db: Db, env: Env, r: Receipt, found: seq<Id>): Db
    requires forall id | id in found :: id in db.messages
  {
    if r.conversation == "" || found == [] then db
    else
      var reader := Reader(env, r, db.messages[found[0]].isGroup);
      Db(map id | id in db.messages ::
           if r.status == Read && id in found && Candidate(db, r, reader, id)
           then Armed(db.messages[id], r.now) else db.messages[id],
         Upserted(db, env, r, reader, found))
  }

  function Upserted(db: Db, env: Env, r: Receipt, reader: Id, found: seq<Id>): map<(Id, Id), Row>
    requires forall id | id in found :: id in db.messages
  {
    if found == [] then db.statuses
    else
      var init, id := found[..|found| - 1], found[|found| - 1];
      var before := Upserted(db, env, r, reader, init);
      if Own(r, db.messages[id]) then before else before[(id, reader) := Row(r.status, env.bucket(r.now))]
  }

  // ---------------------------------------------------------------------------------------------
  // The handlers on shared tables.

  class Store {
    var messages: map<Id, Message>
    var statuses: map<(Id, Id), Row>

    function Tables(): Db
      reads this
    {
      Db(messages, statuses)
    }

    method HandleStatusUpdate(env: Env, r: Receipt, id: Id)
      modifies this
      ensures Tables() == Single(old(Tables()), env, r, id)
    {
      if r.conversation == "" || id == "" {
        return;
      }
      if id !in messages {
        return;
      }
      var m := messages[id];
      var reader := Reader(env, r, m.isGroup);
      if m.sender.Some? && (m.sender.value == r.user || m.sender == r.pseudonym) {
        return;
      }
      var wasRead := (id, reader) in statuses && statuses[(id, reader)].status == Read;
      statuses := statuses[(id, reader) := Row(r.status, env.bucket(r.now))];
      if r.status == Read && !m.isGroup && !wasRead {
        ArmExpiry(id, r.now);
      } else {
        assert messages == messages[id := m];
      }
    }

    /** Shorten one expiry if it is absent or too far ahead. */
    method ArmExpiry(id: Id, now: int)
      requires id in messages
      modifies `messages
      ensures messages == old(messages)[id := Armed(old(messages)[id], now)]
    {
      var m := messages[id];
      if m.expiresAt == None || m.expiresAt.value > now + GRACE {
        messages := messages[id := m.(expiresAt := Some(now + GRACE))];
      } else {
        assert messages == messages[id := m];
      }
    }

    /** All stored rows among the ids, in no particular order. */
    method FindMany(ids: seq<Id>) returns (found: seq<Id>)
      ensures FoundFor(Tables(), ids, found)
    {
      found := [];
      var left := set id | id in ids && id in messages;
      while left != {}
        invariant Distinct(found) && forall id :: id in found <==> id in ids && id in messages && id !in left
        invariant forall id | id in left :: id in ids && id in messages
        decreases |left|
      {
        var id :| id in left;
        found := found + [id];
        left := left - {id};
      }
    }

    method Deduplicate(ids: seq<Id>) returns (kept: seq<Id>)
      ensures kept == Kept(ids)
    {
      var seen: seq<Id> := [];
      for i := 0 to |ids|
        invariant seen == Unique(ids[..i])
      {
        assert ids[..i + 1][..i] == ids[..i];
        if ids[i] != "" && ids[i] !in seen {
          seen := seen + [ids[i]];
        }
      }
      assert ids[..|ids|] == ids;
      return if |seen| <= BATCH_MAX then seen else seen[..BATCH_MAX];
    }

    /** Write the status rows, skipping the reporter's own messages. */
    method UpsertAll(env: Env, r: Receipt, reader: Id, rows: seq<Id>)
      requires forall id | id in rows :: id in messages
      modifies `statuses
      ensures statuses == Upserted(old(Tables()), env, r, reader, rows)
    {
      hide Own;
      for i := 0 to |rows|
        invariant statuses == Upserted(old(Tables()), env, r, reader, rows[..i])
      {
        assert rows[..i + 1][..i] == rows[..i];
        if !Own(r, messages[rows[i]]) {
          statuses := statuses[(rows[i], reader) := Row(r.status, env.bucket(r.now))];
        }
      }
      assert rows[..|rows|] == rows;
    }

    /** One update that shortens the expiry of all these messages. */
    method ArmAll(ids: set<Id>, now: int)
      modifies `messages
      ensures messages.Keys == old(messages).Keys
      ensures forall id | id in messages ::
                messages[id] == if id in ids then Armed(old(messages)[id], now) else old(messages)[id]
    {
      hide Narrow;
      messages := map id | id in messages :: if id in ids then Armed(messages[id], now) else messages[id];
    }

    /** Receipts for many messages at once. */
    method HandleStatusBatchUpdate(env: Env, r: Receipt, ids: seq<Id>) returns (ghost found: seq<Id>)
      modifies this
      ensures r.conversation != "" ==> FoundFor(old(Tables()), Kept(ids), found)
      ensures forall id | id in found :: id in old(messages)
      ensures Tables() == Batch(old(Tables()), env, r, found)
    {
      hide Own, Reader, Unique, Kept, Upserted, Narrow, Armed;
      found := [];
      if r.conversation == "" {
        return;
      }
      var kept := Deduplicate(ids);
      if kept == [] {
        return;
      }
      var rows := FindMany(kept);
      found := rows;
      if rows == [] {
        return;
      }
      assert rows[0] in rows;
      var reader := Reader(env, r, messages[rows[0]].isGroup);
      var wasRead := set id | id in rows && (id, reader) in statuses && statuses[(id, reader)].status == Read;
      UpsertAll(env, r, reader, rows);
      if r.status == Read {
        var candidates := set id | id in rows && messages[id].sender != Some(r.user) && !messages[id].isGroup && id !in wasRead;
        ArmAll(candidates, r.now);
      }
      BatchIs(old(Tables()), env, r, rows, Tables());
    }
  }

  lemma BatchIs(db: Db, env: Env, r: Receipt, found: seq<Id>, after: Db)
    requires r.conversation != "" && found != [] && forall id | id in found :: id in db.messages
    requires var reader := Reader(env, r, db.messages[found[0]].isGroup);
             && after.statuses == Upserted(db, env, r, reader, found)
             && after.messages.Keys == db.messages.Keys
             && forall id | id in db.messages ::
                  after.messages[id] == if r.status == Read && id in found && Candidate(db, r, reader, id)
                                        then Armed(db.messages[id], r.now) else db.messages[id]
    ensures after == Batch(db, env, r, found)
  {
    hide Own, Reader, Upserted, Armed, Candidate;
    assert after.messages == Batch(db, env, r, found).messages;
  }

  // ---------------------------------------------------------------------------------------------
  // Both paths, message by message and row by row.

  function Lookup(db: Db, id: Id, who: Id): Option<Row> {
    if (id, who) in db.statuses then Some(db.statuses[(id, who)]) else None
  }

  /** The row for a message and reader after the message's own receipt. */
  function RowAfter(db: Db, env: Env, r: Receipt, id: Id, who: Id): Option<Row> {
    if Touches(db, r, id) && who == Reader(env, r, db.messages[id].isGroup)
    then Some(Row(r.status, env.bucket(r.now))) else Lookup(db, id, who)
  }

  /** Two databases agree on everything about one message. */
  ghost predicate SameFor(a: Db, b: Db, id: Id) {
    && (id in a.messages <==> id in b.messages) && (id in a.messages ==> a.messages[id] == b.messages[id])
    && forall who :: Lookup(a, id, who) == Lookup(b, id, who)
  }

  /** A database holds the effect of a message's own receipt. */
  ghost predicate Receipted(db: Db, env: Env, r: Receipt, id: Id, after: Db) {
    && (id in db.messages <==> id in after.messages)
    && (id in db.messages ==> after.messages[id] == MessageAfter(db, env, r, id))
    && forall who :: Lookup(after, id, who) == RowAfter(db, env, r, id, who)
  }

  lemma SingleIs(db: Db, env: Env, r: Receipt, id: Id)
    ensures Receipted(db, env, r, id, Single(db, env, r, id))
    ensures forall other | other != id :: SameFor(db, Single(db, env, r, id), other)
  {
    hide Own, Reader;
  }

  lemma ReceiptedFrom(db: Db, mid: Db, env: Env, r: Receipt, id: Id, after: Db)
    requires SameFor(db, mid, id) && Receipted(mid, env, r, id, after)
    ensures Receipted(db, env, r, id, after)
  {
    hide Own, Reader;
    assert forall who :: Lookup(db, id, who) == Lookup(mid, id, who);
    forall who
      ensures Lookup(after, id, who) == RowAfter(db, env, r, id, who)
    {
      assert Lookup(after, id, who) == RowAfter(mid, env, r, id, who);
    }
    if id in db.messages {
      var reader := Reader(env, r, db.messages[id].isGroup);
      assert Lookup(db, id, reader) == Lookup(mid, id, reader);
    }
  }

  /** Receipts one by one, in any order: each message gets its own receipt's effect and nothing else moves. */
  lemma {:induction false} SingleAllIs(db: Db, env: Env, r: Receipt, order: seq<Id>, id: Id)
    requires Distinct(order)
    ensures var after := SingleAll(db, env, r, order);
            if id in order then Receipted(db, env, r, id, after) else SameFor(db, after, id)
    decreases |order|
  {
    hide Single, Receipted, MessageAfter, RowAfter;
    if order != [] {
      var init, last := order[..|order| - 1], order[|order| - 1];
      var mid := SingleAll(db, env, r, init);
      SingleAllIs(db, env, r, init, id);
      SingleIs(mid, env, r, last);
      if id == last {
        assert id !in init;
        ReceiptedFrom(db, mid, env, r, id, SingleAll(db, env, r, order));
      } else {
        assert id in order <==> id in init;
        assert SameFor(mid, Single(mid, env, r, last), id);
        if id in init { ReceiptedAfter(db, env, r, id, mid, SingleAll(db, env, r, order)); }
        else { SameForTransitive(db, mid, SingleAll(db, env, r, order), id); }
      }
    }
  }

  lemma ReceiptedAfter(db: Db, env: Env, r: Receipt, id: Id, mid: Db, after: Db)
    requires Receipted(db, env, r, id, mid) && SameFor(mid, after, id)
    ensures Receipted(db, env, r, id, after)
  {
    hide RowAfter, MessageAfter;
    forall who
      ensures Lookup(after, id, who) == RowAfter(db, env, r, id, who)
    {
      assert Lookup(mid, id, who) == RowAfter(db, env, r, id, who);
      assert Lookup(mid, id, who) == Lookup(after, id, who);
    }
  }

  lemma SameForTransitive(a: Db, b: Db, c: Db, id: Id)
    requires SameFor(a, b, id) && SameFor(b, c, id)
    ensures SameFor(a, c, id)
  {
    forall who
      ensures Lookup(a, id, who) == Lookup(c, id, who)
    {
      assert Lookup(a, id, who) == Lookup(b, id, who) && Lookup(b, id, who) == Lookup(c, id, who);
    }
  }

  lemma {:induction false} UpsertedIs(db: Db, env: Env, r: Receipt, reader: Id, found: seq<Id>, id: Id, who: Id)
    requires forall x | x in found :: x in db.messages
    ensures Lookup(Db(db.messages, Upserted(db, env, r, reader, found)), id, who)
            == if id in found && !Own(r, db.messages[id]) && who == reader
               then Some(Row(r.status, env.bucket(r.now))) else Lookup(db, id, who)
    decreases |found|
  {
    hide Own;
    if found != [] {
      var init := found[..|found| - 1];
      UpsertedIs(db, env, r, reader, init, id, who);
      assert id in found <==> id in init || id == found[|found| - 1];
    }
  }

  // ---------------------------------------------------------------------------------------------
  // Whose receipt it is.

  /** A receipt for a message whose sender is sealed is always recorded: with the status reported and the
  coarse time, under the pseudonym in a group that has one and under the server's tag otherwise. */
  lemma SealedIsRecorded(db: Db, env: Env, r: Receipt, id: Id)
    requires r.conversation != "" && id != "" && id in db.messages && db.messages[id].sender == None
    ensures var pseudonymous := db.messages[id].isGroup && r.pseudonym.Some? && r.pseudonym.value != "";
            Lookup(Single(db, env, r, id), id, if pseudonymous then r.pseudonym.value else env.tag(r.conversation, r.user))
            == Some(Row(r.status, env.bucket(r.now)))
  {
  }

  /** The sender's own report changes nothing, under either identity. */
  lemma OwnIsIgnored(db: Db, env: Env, r: Receipt, id: Id)
    requires id in db.messages && (db.messages[id].sender == Some(r.user) || (r.pseudonym.Some? && db.messages[id].sender == r.pseudonym))
    ensures Single(db, env, r, id) == db
  {
  }

  /** Without a conversation, a message id or a stored message there is nothing to do. */
  lemma BlankIsIgnored(db: Db, env: Env, r: Receipt, id: Id)
    requires r.conversation == "" || id == "" || id !in db.messages
    ensures Single(db, env, r, id) == db
    ensures r.conversation == "" && id in db.messages ==> Batch(db, env, r, [id]) == db
  {
    hide Own, Reader;
  }

  /** Under whose name a 1:1 receipt is filed is not for the client to choose: whatever pseudonym it sends,
  the row is that of the server's tag for conversation and account. */
  lemma OneToOneReaderIsTag(db: Db, env: Env, r: Receipt, id: Id, who: Id)
    requires id in db.messages && !db.messages[id].isGroup && who != env.tag(r.conversation, r.user)
    ensures Lookup(Single(db, env, r, id), id, who) == Lookup(db, id, who)
  {
    hide Own;
  }

  /** A group receipt with a pseudonym leaves no trace of the account: it is the same for every account
  that did not send the message. */
  lemma GroupReaderIsPseudonym(db: Db, env: Env, r: Receipt, user: Id, id: Id)
    requires id in db.messages && db.messages[id].isGroup && r.pseudonym.Some? && r.pseudonym.value != ""
    requires db.messages[id].sender != Some(r.user) && db.messages[id].sender != Some(user)
    ensures Single(db, env, r, id) == Single(db, env, r.(user := user), id)
  {
  }

  // ---------------------------------------------------------------------------------------------
  // The batch refines the single path.

  /** The identity the batch reports under: that of the first row found, for all of them. */
  function BatchReader(db: Db, env: Env, r: Receipt, found: seq<Id>): Id
    requires forall id | id in found :: id in db.messages
  {
    Reader(env, r, found != [] && db.messages[found[0]].isGroup)
  }

  /** A message of the reporter's own whose expiry the batch shortens all the same: the single path skips
  it, but the batch looks for candidates by user only, not by pseudonym. */
  predicate ArmsOwn(db: Db, r: Receipt, reader: Id, id: Id)
    requires id in db.messages
  {
    var m := db.messages[id];
    && r.status == Read && Own(r, m) && Candidate(db, r, reader, id) && Narrow(m.expiresAt, r.now) != m.expiresAt
  }

  /** A message reported under an identity that is not the one its own kind of conversation calls for,
  unless the row was there already under both. */
  predicate Misfiles(db: Db, env: Env, r: Receipt, reader: Id, id: Id)
    requires id in db.messages
  {
    var m, row := db.messages[id], Some(Row(r.status, env.bucket(r.now)));
    var own := Reader(env, r, m.isGroup);
    && !Own(r, m) && reader != own && !(Lookup(db, id, reader) == row && Lookup(db, id, own) == row)
  }

  /** The messages the batch treats differently from their own receipts. */
  predicate Differs(db: Db, env: Env, r: Receipt, reader: Id, id: Id) {
    r.conversation != "" && id in db.messages && (ArmsOwn(db, r, reader, id) || Misfiles(db, env, r, reader, id))
  }

  lemma {:induction false} UniqueIs(ids: seq<Id>)
    ensures Distinct(Unique(ids)) && forall id :: id in Unique(ids) <==> id in ids && id != ""
    decreases |ids|
  {
    if ids != [] {
      var init, last := ids[..|ids| - 1], ids[|ids| - 1];
      UniqueIs(init);
      assert forall id :: id in ids <==> id in init || id == last;
    }
  }

  /** x comes before y: it occurs at a place up to which y does not. */
  ghost predicate Precedes(ids: seq<Id>, x: Id, y: Id) {
    exists k | 0 <= k < |ids| :: ids[k] == x && y !in ids[..k + 1]
  }

  lemma {:induction false} UniqueInOrder(ids: seq<Id>, i: nat, j: nat)
    requires i < j < |Unique(ids)|
    ensures Precedes(ids, Unique(ids)[i], Unique(ids)[j])
    decreases |ids|
  {
    var init, last := ids[..|ids| - 1], ids[|ids| - 1];
    UniqueIs(init);
    var x, y := Unique(ids)[i], Unique(ids)[j];
    if j < |Unique(init)| {
      UniqueInOrder(init, i, j);
      var k :| 0 <= k < |init| && init[k] == x && y !in init[..k + 1];
      assert ids[k] == x && ids[..k + 1] == init[..k + 1];
    } else {
      assert x in init && y !in init;
      var k :| 0 <= k < |init| && init[k] == x;
      assert ids[k] == x && forall z | z in ids[..k + 1] :: z in init;
    }
  }

  /** The first hundred distinct non-empty ids, in the order in which they come. */
  lemma KeptMeans(ids: seq<Id>)
    ensures Distinct(Kept(ids)) && |Kept(ids)| <= 100 && forall id | id in Kept(ids) :: id in ids && id != ""
    ensures |Kept(ids)| < 100 ==> forall id | id in ids && id != "" :: id in Kept(ids)
    ensures forall i, j | 0 <= i < j < |Kept(ids)| :: Precedes(ids, Kept(ids)[i], Kept(ids)[j])
    ensures forall x, y | x in Kept(ids) && y in ids && y != "" && y !in Kept(ids) :: Precedes(ids, x, y)
  {
    hide Unique, Precedes;
    var all, kept := Unique(ids), Kept(ids);
    UniqueIs(ids);
    forall i, j | 0 <= i < j < |all|
      ensures Precedes(ids, all[i], all[j])
    {
      UniqueInOrder(ids, i, j);
    }
    forall x, y | x in kept && y in ids && y != "" && y !in kept
      ensures Precedes(ids, x, y)
    {
      var i :| 0 <= i < |kept| && kept[i] == x;
      var j :| 0 <= j < |all| && all[j] == y;
      assert j >= |kept|;
    }
  }

  /** At most 100 non-empty distinct ids are all kept, as they are. */
  lemma {:induction false} KeptIsAll(ids: seq<Id>)
    requires Distinct(ids) && forall id | id in ids :: id != ""
    ensures Unique(ids) == ids && (|ids| <= 100 ==> Kept(ids) == ids)
    decreases |ids|
  {
    if ids != [] {
      var init, last := ids[..|ids| - 1], ids[|ids| - 1];
      assert forall id | id in init :: id in ids;
      KeptIsAll(init);
      assert last in ids && last !in init;
    }
  }

  lemma KeptFacts(ids: seq<Id>)
    ensures forall id | id in Kept(ids) :: id != ""
  {
    hide Unique;
    UniqueIs(ids);
    assert forall id | id in Kept(ids) :: id in Unique(ids);
  }

  /** The batch's effect on one message, with the rows it reports under the one identity. */
  lemma BatchRows(db: Db, env: Env, r: Receipt, found: seq<Id>, id: Id)
    requires r.conversation != "" && found != [] && forall x | x in found :: x in db.messages
    ensures var after, reader := Batch(db, env, r, found), BatchReader(db, env, r, found);
            forall who :: Lookup(after, id, who)
                == if id in found && !Own(r, db.messages[id]) && who == reader
                   then Some(Row(r.status, env.bucket(r.now))) else Lookup(db, id, who)
  {
    hide Reader, Upserted, Own;
    assert found[0] in found;
    var reader := BatchReader(db, env, r, found);
    forall who
      ensures Lookup(Batch(db, env, r, found), id, who)
              == if id in found && !Own(r, db.messages[id]) && who == reader
                 then Some(Row(r.status, env.bucket(r.now))) else Lookup(db, id, who)
    {
      UpsertedIs(db, env, r, reader, found, id, who);
    }
  }

  /** A message of the batch gets its own receipt's effect exactly when it is not treated differently. */
  lemma BatchOn(db: Db, env: Env, r: Receipt, ids: seq<Id>, found: seq<Id>, id: Id)
    requires FoundFor(db, ids, found) && forall x | x in ids :: x != ""
    ensures var after := Batch(db, env, r, found);
            && (id !in ids ==> SameFor(db, after, id))
            && (id in ids ==> (Receipted(db, env, r, id, after) <==> !Differs(db, env, r, BatchReader(db, env, r, found), id)))
  {
    hide Reader, Upserted, Own, Narrow, Distinct, ArmsOwn, Misfiles;
    if r.conversation != "" && found != [] {
      BatchRows(db, env, r, found, id);
      if id in found { FoundOn(db, env, r, found, id); }
    }
  }

  lemma FoundOn(db: Db, env: Env, r: Receipt, found: seq<Id>, id: Id)
    requires r.conversation != "" && id in found && id != "" && forall x | x in found :: x in db.messages
    ensures Receipted(db, env, r, id, Batch(db, env, r, found)) <==> !Differs(db, env, r, BatchReader(db, env, r, found), id)
  {
    hide Reader, Upserted, Narrow;
    var after, reader := Batch(db, env, r, found), BatchReader(db, env, r, found);
    var own, row := Reader(env, r, db.messages[id].isGroup), Some(Row(r.status, env.bucket(r.now)));
    BatchRows(db, env, r, found, id);
    assert Lookup(after, id, reader) == (if Own(r, db.messages[id]) then Lookup(db, id, reader) else row);
    assert RowAfter(db, env, r, id, own) == (if Own(r, db.messages[id]) then Lookup(db, id, own) else row);
    if Misfiles(db, env, r, reader, id) {
      assert Lookup(after, id, own) == Lookup(db, id, own);
      assert RowAfter(db, env, r, id, reader) == Lookup(db, id, reader);
    }
  }

  lemma SameEverywhere(a: Db, b: Db)
    requires forall id :: SameFor(a, b, id)
    ensures a == b
  {
    assert a.messages == b.messages by {
      forall id
        ensures (id in a.messages <==> id in b.messages) && (id in a.messages ==> a.messages[id] == b.messages[id])
      {
        assert SameFor(a, b, id);
      }
    }
    forall k: (Id, Id)
      ensures k in a.statuses <==> k in b.statuses
      ensures k in a.statuses ==> a.statuses[k] == b.statuses[k]
    {
      assert SameFor(a, b, k.0);
      assert Lookup(a, k.0, k.1) == Lookup(b, k.0, k.1);
    }
    assert a.statuses == b.statuses;
  }

  lemma ReceiptedSame(db: Db, env: Env, r: Receipt, id: Id, a: Db, b: Db)
    requires Receipted(db, env, r, id, a) && Receipted(db, env, r, id, b)
    ensures SameFor(a, b, id)
  {
    hide RowAfter, MessageAfter;
    forall who
      ensures Lookup(a, id, who) == Lookup(b, id, who)
    {
      assert Lookup(a, id, who) == RowAfter(db, env, r, id, who);
      assert Lookup(b, id, who) == RowAfter(db, env, r, id, who);
    }
  }

  lemma SameForBoth(db: Db, a: Db, b: Db, id: Id)
    requires SameFor(db, a, id) && SameFor(db, b, id)
    ensures SameFor(a, b, id)
  {
    forall who
      ensures Lookup(a, id, who) == Lookup(b, id, who)
    {
      assert Lookup(db, id, who) == Lookup(a, id, who) && Lookup(db, id, who) == Lookup(b, id, who);
    }
  }

  /** The batch leaves exactly the rows and expiries that single receipts leave, whatever order they come
  in and whatever rows the ids name, if and only if no message found is treated differently. */
  lemma BatchIsSingles(db: Db, env: Env, r: Receipt, ids: seq<Id>, found: seq<Id>, order: seq<Id>)
    requires FoundFor(db, Kept(ids), found)
    requires Distinct(order) && forall id :: id in order <==> id in Kept(ids)
    ensures Batch(db, env, r, found) == SingleAll(db, env, r, order)
            <==> forall id | id in found :: !Differs(db, env, r, BatchReader(db, env, r, found), id)
  {
    hide Kept, Unique, Batch, SingleAll, ArmsOwn, Misfiles, Receipted, SameFor, Distinct, BatchReader;
    var kept, a, b := Kept(ids), Batch(db, env, r, found), SingleAll(db, env, r, order);
    var reader := BatchReader(db, env, r, found);
    KeptFacts(ids);
    if forall id | id in found :: !Differs(db, env, r, reader, id) {
      forall id
        ensures SameFor(a, b, id)
      {
        BatchOn(db, env, r, kept, found, id);
        SingleAllIs(db, env, r, order, id);
        if id in kept { ReceiptedSame(db, env, r, id, a, b); } else { SameForBoth(db, a, b, id); }
      }
      SameEverywhere(a, b);
    } else {
      var id :| id in found && Differs(db, env, r, reader, id);
      BatchOn(db, env, r, kept, found, id);
      SingleAllIs(db, env, r, order, id);
    }
  }

  /** The messages belong to one kind of conversation, as those of one conversation do. */
  ghost predicate Uniform(db: Db, ids: seq<Id>) {
    forall a, b | a in ids && b in ids && a in db.messages && b in db.messages ::
      db.messages[a].isGroup == db.messages[b].isGroup
  }

  /** The one case left among messages of one kind: a first READ of a 1:1 message whose sender is the
  reporter's pseudonym. */
  predicate Overreaches(db: Db, env: Env, r: Receipt, id: Id) {
    && r.conversation != "" && id in db.messages && r.status == Read
    && var m := db.messages[id];
    && !m.isGroup && m.sender.Some? && m.sender == r.pseudonym && m.sender.value != r.user
    && !WasRead(db, id, Reader(env, r, false)) && Narrow(m.expiresAt, r.now) != m.expiresAt
  }

  lemma UniformDiffers(db: Db, env: Env, r: Receipt, ids: seq<Id>, found: seq<Id>, id: Id)
    requires FoundFor(db, ids, found) && Uniform(db, ids) && id in found
    ensures Differs(db, env, r, BatchReader(db, env, r, found), id) <==> Overreaches(db, env, r, id)
  {
    hide Reader, Narrow, WasRead, Distinct;
    assert found[0] in found;
    assert db.messages[id].isGroup == db.messages[found[0]].isGroup;
  }

  /** For the messages of one conversation the two paths agree if and only if none is in that case. */
  lemma BatchRefinesSingles(db: Db, env: Env, r: Receipt, ids: seq<Id>, found: seq<Id>, order: seq<Id>)
    requires FoundFor(db, Kept(ids), found) && Uniform(db, Kept(ids))
    requires Distinct(order) && forall id :: id in order <==> id in Kept(ids)
    ensures Batch(db, env, r, found) == SingleAll(db, env, r, order)
            <==> forall id | id in Kept(ids) :: !Overreaches(db, env, r, id)
  {
    hide Kept, Unique, Batch, SingleAll, Differs, Uniform, Distinct, BatchReader, Narrow, WasRead;
    BatchIsSingles(db, env, r, ids, found, order);
    forall id | id in found
      ensures Differs(db, env, r, BatchReader(db, env, r, found), id) <==> Overreaches(db, env, r, id)
    {
      UniformDiffers(db, env, r, Kept(ids), found, id);
    }
    assert forall id | id in Kept(ids) && Overreaches(db, env, r, id) :: id in found;
  }

  /** That case is real: a first READ, reported under the pseudonym the 1:1 message was sent under. */
  lemma BatchCanOverreach()
    ensures var db := Db(map["m" := Message(Some("p"), false, None)], map[]);
            var env := Env((c: Id, u: Id) => "t", (t: int) => t);
            var r := Receipt("u", "c", Read, Some("p"), 0);
            Overreaches(db, env, r, "m") && Batch(db, env, r, ["m"]) != Single(db, env, r, "m")
  {
    var db := Db(map["m" := Message(Some("p"), false, None)], map[]);
    var env := Env((c: Id, u: Id) => "t", (t: int) => t);
    var r := Receipt("u", "c", Read, Some("p"), 0);
    assert "m" in ["m"];
    assert !WasRead(db, "m", Reader(env, r, false));
    assert Batch(db, env, r, ["m"]).messages["m"] == Armed(db.messages["m"], 0);
  }

  /** So is the other: ids of a group and of a 1:1 message together, all senders sealed.  The batch stores
  the receipt of the 1:1 message under the pseudonym the client sent, its own receipt under the tag. */
  lemma BatchCanMisfile()
    ensures var db := Db(map["g" := Message(None, true, None), "m" := Message(None, false, None)], map[]);
            var env := Env((c: Id, u: Id) => "t", (t: int) => t);
            var r := Receipt("u", "c", Read, Some("p"), 0);
            var batch, singles := Batch(db, env, r, ["g", "m"]), SingleAll(db, env, r, ["g", "m"]);
            && SendersSealed(db) && !Overreaches(db, env, r, "g") && !Overreaches(db, env, r, "m")
            && Lookup(batch, "m", "p").Some? && Lookup(batch, "m", "t") == None
            && Lookup(singles, "m", "p") == None && Lookup(singles, "m", "t").Some?
  {
    var db := Db(map["g" := Message(None, true, None), "m" := Message(None, false, None)], map[]);
    var env := Env((c: Id, u: Id) => "t", (t: int) => t);
    var r := Receipt("u", "c", Read, Some("p"), 0);
    var found: seq<Id> := ["g", "m"];
    assert "g" != "m" && "p" != "t" && "m" in found;
    BatchRows(db, env, r, found, "m");
    SingleAllIs(db, env, r, found, "m");
    var singles := SingleAll(db, env, r, found);
    assert Lookup(singles, "m", "p") == RowAfter(db, env, r, "m", "p");
    assert Lookup(singles, "m", "t") == RowAfter(db, env, r, "m", "t");
  }

  /** No 1:1 message names its sender, which is how messages are stored now. */
  ghost predicate SendersSealed(db: Db) {
    forall id | id in db.messages && !db.messages[id].isGroup :: db.messages[id].sender == None
  }

  /** Then the two paths agree on the messages of one conversation. */
  lemma SealedBatchIsSingles(db: Db, env: Env, r: Receipt, ids: seq<Id>, found: seq<Id>, order: seq<Id>)
    requires FoundFor(db, Kept(ids), found) && Uniform(db, Kept(ids)) && SendersSealed(db)
    requires Distinct(order) && forall id :: id in order <==> id in Kept(ids)
    ensures Batch(db, env, r, found) == SingleAll(db, env, r, order)
  {
    hide Kept, Unique, Batch, SingleAll, Uniform, Distinct, Narrow, WasRead;
    BatchRefinesSingles(db, env, r, ids, found, order);
  }

  // ---------------------------------------------------------------------------------------------
  // Runs of receipts.

  datatype Event =
    | One(receipt: Receipt, id: Id)
    | Many(receipt: Receipt, ids: seq<Id>, found: seq<Id>)

  ghost predicate Step(db: Db, env: Env, e: Event, after: Db) {
    match e
    case One(r, id) => after == Single(db, env, r, id)
    case Many(r, ids, found) => FoundFor(db, Kept(ids), found) && after == Batch(db, env, r, found)
  }

  ghost predicate IsRun(states: seq<Db>, events: seq<Event>, env: Env) {
    && |states| == |events| + 1
    && forall i | 0 <= i < |events| :: Step(states[i], env, events[i], states[i + 1])
  }

  /** b is no later than a; no expiry at all counts as latest. */
  predicate NotLater(b: Option<int>, a: Option<int>) {
    a == None || (b.Some? && b.value <= a.value)
  }

  /** What a step may do to a message: keep it, or shorten its expiry to the end of the grace period. */
  ghost predicate Kind(before: Db, now: int, id: Id, after: Db)
    requires id in before.messages
  {
    id in after.messages && (after.messages[id] == before.messages[id] || after.messages[id] == Armed(before.messages[id], now))
  }

  lemma StepIsKind(db: Db, env: Env, e: Event, after: Db, id: Id)
    requires Step(db, env, e, after) && id in db.messages
    ensures Kind(db, e.receipt.now, id, after)
  {
    hide Own, Reader, Kept, Upserted, Narrow;
    if e.One? {
      if id != e.id { assert SameFor(db, after, id) by { SingleIs(db, env, e.receipt, e.id); } }
    }
  }

  /** Over any run an expiry never moves later, and sender and kind never change. */
  lemma {:induction false} ExpiryNeverMovesLater(states: seq<Db>, events: seq<Event>, env: Env, i: nat, j: nat, id: Id)
    requires IsRun(states, events, env) && i <= j < |states| && id in states[i].messages
    ensures id in states[j].messages && NotLater(states[j].messages[id].expiresAt, states[i].messages[id].expiresAt)
    ensures states[j].messages[id].(expiresAt := None) == states[i].messages[id].(expiresAt := None)
    decreases j - i
  {
    hide Step;
    if i < j {
      ExpiryNeverMovesLater(states, events, env, i, j - 1, id);
      assert Step(states[j - 1], env, events[j - 1], states[j]);
      StepIsKind(states[j - 1], env, events[j - 1], states[j], id);
    }
  }

  /** A receipt that counts as reading someone else's 1:1 message. */
  ghost predicate Reads(db: Db, e: Event, id: Id) {
    && e.receipt.status == Read && Touches(db, e.receipt, id) && !db.messages[id].isGroup
    && (if e.One? then e.id == id else id in e.found)
  }

  /** A message on record as read expires within the grace period from now. */
  ghost predicate ArmedBy(db: Db, now: int) {
    forall id, who | WasRead(db, id, who) && id in db.messages && !db.messages[id].isGroup ::
      WithinGrace(db.messages[id], now)
  }

  predicate WithinGrace(m: Message, now: int) {
    m.expiresAt.Some? && m.expiresAt.value <= now + GRACE
  }

  /** Reading arms the expiry: at once if it is the first time, and otherwise it was armed before. */
  lemma ReadArms(db: Db, env: Env, e: Event, after: Db, id: Id)
    requires Step(db, env, e, after) && ArmedBy(db, e.receipt.now) && Reads(db, e, id)
    ensures id in after.messages && WithinGrace(after.messages[id], e.receipt.now)
  {
    hide Upserted, Kept;
    var r := e.receipt;
    StepIsKind(db, env, e, after, id);
    if e.One? {
      var reader := Reader(env, r, false);
      if WasRead(db, id, reader) { assert WithinGrace(db.messages[id], r.now); }
    } else {
      var reader := Reader(env, r, db.messages[e.found[0]].isGroup);
      if WasRead(db, id, reader) { assert WithinGrace(db.messages[id], r.now); }
    }
  }

  /** The identity under which the event reports. */
  function ReaderOf(db: Db, env: Env, e: Event, id: Id): Id
    requires id in db.messages && (e.Many? ==> forall x | x in e.found :: x in db.messages)
  {
    match e
    case One(r, _) => Reader(env, r, db.messages[id].isGroup)
    case Many(r, _, found) => BatchReader(db, env, r, found)
  }

  /** The event is about this message. */
  predicate Names(e: Event, id: Id) {
    match e
    case One(_, one) => id == one
    case Many(_, _, found) => id in found
  }

  /** The expiry 24 hours from now, or the one there is if it comes before. */
  function Within24Hours(expiry: Option<int>, now: int): Option<int> {
    match expiry
    case None => Some(now + 86_400_000)
    case Some(t) => Some(if t <= now + 86_400_000 then t else now + 86_400_000)
  }

  /** A first READ of someone else's 1:1 message sets its expiry 24 hours ahead unless it comes before that:
  on any table, at any clock reading, by either path. */
  lemma FirstReadSets(db: Db, env: Env, e: Event, after: Db, id: Id)
    requires Step(db, env, e, after) && Reads(db, e, id) && !WasRead(db, id, ReaderOf(db, env, e, id))
    ensures id in after.messages
    ensures after.messages[id] == db.messages[id].(expiresAt := Within24Hours(db.messages[id].expiresAt, e.receipt.now))
  {
    hide Upserted, Kept, Reader, WasRead;
    if e.Many? { assert e.found != [] && after.messages[id] == Armed(db.messages[id], e.receipt.now); }
  }

  /** Nothing else changes an expiry: not a DELIVERED, not a repeated READ, not a group message, not a
  message of the reporter's own account, not a report about another message. */
  lemma OnlyFirstReadsSet(db: Db, env: Env, e: Event, after: Db, id: Id)
    requires Step(db, env, e, after) && id in db.messages
    ensures id in after.messages
    ensures after.messages[id] != db.messages[id] ==>
              && e.receipt.status == Read && Names(e, id) && !db.messages[id].isGroup
              && !WasRead(db, id, ReaderOf(db, env, e, id)) && db.messages[id].sender != Some(e.receipt.user)
              && after.messages[id] == db.messages[id].(expiresAt := Some(e.receipt.now + 86_400_000))
  {
    hide Upserted, Kept, Reader, WasRead;
    if e.One? && id != e.id { assert SameFor(db, after, id) by { SingleIs(db, env, e.receipt, e.id); } }
  }

  /** Over any run: an expiry that is not what it was is 24 hours after some READ of the message. */
  lemma {:induction false} ExpiryComesFromRead(states: seq<Db>, events: seq<Event>, env: Env, i: nat, j: nat, id: Id)
    requires IsRun(states, events, env) && i <= j < |states| && id in states[i].messages
    ensures id in states[j].messages
    ensures states[j].messages[id].expiresAt != states[i].messages[id].expiresAt ==>
              exists k | i <= k < j ::
                && events[k].receipt.status == Read && Names(events[k], id)
                && states[j].messages[id].expiresAt == Some(events[k].receipt.now + 86_400_000)
    decreases j - i
  {
    hide Step, WasRead, Names;
    if i < j {
      ExpiryComesFromRead(states, events, env, i, j - 1, id);
      assert Step(states[j - 1], env, events[j - 1], states[j]);
      OnlyFirstReadsSet(states[j - 1], env, events[j - 1], states[j], id);
    }
  }

  /** A first READ of someone else's 1:1 message leaves it at most 24 hours ahead: on any table, at any
  clock reading, by either path. */
  lemma FirstReadArms(db: Db, env: Env, e: Event, after: Db, id: Id)
    requires Step(db, env, e, after) && Reads(db, e, id) && !WasRead(db, id, ReaderOf(db, env, e, id))
    ensures id in after.messages && WithinGrace(after.messages[id], e.receipt.now)
  {
    hide Upserted, Kept, Reader;
    StepIsKind(db, env, e, after, id);
    if e.Many? { assert e.found != [] && after.messages[id] == Armed(db.messages[id], e.receipt.now); }
  }

  /** And so it stays, over any run and whatever the clock does. */
  lemma FirstReadExpires(states: seq<Db>, events: seq<Event>, env: Env, i: nat, j: nat, id: Id)
    requires IsRun(states, events, env) && i < j < |states| && Reads(states[i], events[i], id)
    requires Step(states[i], env, events[i], states[i + 1]) && !WasRead(states[i], id, ReaderOf(states[i], env, events[i], id))
    ensures id in states[j].messages && WithinGrace(states[j].messages[id], events[i].receipt.now)
  {
    hide Reads, Step, WasRead;
    FirstReadArms(states[i], env, events[i], states[i + 1], id);
    ExpiryNeverMovesLater(states, events, env, i + 1, j, id);
  }

  /** Where a READ row comes from. */
  lemma ReadRowFrom(db: Db, env: Env, e: Event, after: Db, id: Id, who: Id)
    requires Step(db, env, e, after) && WasRead(after, id, who) && id in after.messages && !after.messages[id].isGroup
    ensures id in db.messages && !db.messages[id].isGroup
    ensures WasRead(db, id, who) || Reads(db, e, id)
  {
    hide Upserted, Kept, Reader, Narrow;
    if e.One? {
      SingleIs(db, env, e.receipt, e.id);
      if id == e.id {
        assert Lookup(after, id, who) == RowAfter(db, env, e.receipt, id, who);
      } else {
        assert SameFor(db, after, id);
        assert Lookup(db, id, who) == Lookup(after, id, who);
      }
    } else if e.receipt.conversation != "" && e.found != [] {
      var reader := Reader(env, e.receipt, db.messages[e.found[0]].isGroup);
      UpsertedIs(db, env, e.receipt, reader, e.found, id, who);
      assert Lookup(after, id, who) == Lookup(Db(db.messages, Upserted(db, env, e.receipt, reader, e.found)), id, who);
      KeptFacts(e.ids);
    }
  }

  lemma StepKeepsArmed(db: Db, env: Env, e: Event, after: Db)
    requires Step(db, env, e, after) && ArmedBy(db, e.receipt.now)
    ensures ArmedBy(after, e.receipt.now)
  {
    hide Step, Reads, WasRead;
    forall id, who | WasRead(after, id, who) && id in after.messages && !after.messages[id].isGroup
      ensures WithinGrace(after.messages[id], e.receipt.now)
    {
      ReadRowFrom(db, env, e, after, id, who);
      if Reads(db, e, id) {
        ReadArms(db, env, e, after, id);
      } else {
        StepIsKind(db, env, e, after, id);
      }
    }
  }

  ghost predicate ClockAdvances(events: seq<Event>) {
    forall i, j | 0 <= i <= j < |events| :: events[i].receipt.now <= events[j].receipt.now
  }

  lemma {:induction false} RunStaysArmed(states: seq<Db>, events: seq<Event>, env: Env, i: nat)
    requires IsRun(states, events, env) && ClockAdvances(events) && i < |events|
    requires states[0].statuses == map[]
    ensures ArmedBy(states[i], events[i].receipt.now)
    decreases i
  {
    hide Step, ClockAdvances;
    if i > 0 {
      RunStaysArmed(states, events, env, i - 1);
      assert Step(states[i - 1], env, events[i - 1], states[i]);
      StepKeepsArmed(states[i - 1], env, events[i - 1], states[i]);
      assert events[i - 1].receipt.now <= events[i].receipt.now by { Advances(events, i - 1, i); }
      ArmedLater(states[i], events[i - 1].receipt.now, events[i].receipt.now);
    }
  }

  lemma Advances(events: seq<Event>, i: nat, j: nat)
    requires ClockAdvances(events) && i <= j < |events|
    ensures events[i].receipt.now <= events[j].receipt.now
  {
  }

  lemma ArmedLater(db: Db, now: int, later: int)
    requires ArmedBy(db, now) && now <= later
    ensures ArmedBy(db, later)
  {
    forall id, who | WasRead(db, id, who) && id in db.messages && !db.messages[id].isGroup
      ensures WithinGrace(db.messages[id], later)
    {
      assert WithinGrace(db.messages[id], now);
    }
  }

  /** Over any run from a table without receipts: once someone else's 1:1 message is reported read, by
  either path and whatever was reported before, it expires within 24 hours of that, for good. */
  lemma ReadExpiresWithinGrace(states: seq<Db>, events: seq<Event>, env: Env, i: nat, j: nat, id: Id)
    requires IsRun(states, events, env) && ClockAdvances(events) && states[0].statuses == map[]
    requires i < j < |states| && Reads(states[i], events[i], id)
    ensures id in states[j].messages && WithinGrace(states[j].messages[id], events[i].receipt.now)
  {
    hide Reads, ArmedBy;
    RunStaysArmed(states, events, env, i);
    assert Step(states[i], env, events[i], states[i + 1]);
    ReadArms(states[i], env, events[i], states[i + 1], id);
    ExpiryNeverMovesLater(states, events, env, i + 1, j, id);
  }
}
