/** The document store: every SQL statement is one atomic step over the four tables of one owner. */
module Documents {

  import opened Keyset
  import opened Options
  import opened Ordering

  type Instant = int

  const MINUTE := 60000000

  datatype Document = Document(createdAt: Instant)

  datatype Revision = Revision(documentId: string, artifact: string, createdAt: Instant)

  datatype Tombstone = Tombstone(tombstoneId: string, createdAt: Instant)

  datatype Ticket = Ticket(
    documentId: string, revisionId: string, createdAt: Instant, expiresAt: Instant, redeemedAt: Option<Instant>)

  /** Tables by primary key; tombstones by the document they name, which is unique among them. */
  datatype Tables = Tables(
    documents: map<string, Document>, revisions: map<string, Revision>,
    tombstones: map<string, Tombstone>, tickets: map<string, Ticket>)

  const EMPTY := Tables(map[], map[], map[], map[])

  // ---------------------------------------------------------------- statements

  datatype Statement =
    | InsertDocument(documentId: string, now: Instant)
    | InsertRevision(revisionId: string, documentId: string, artifact: string, now: Instant)
    | InsertTombstone(tombstoneId: string, documentId: string, now: Instant)
    | InsertTicket(ticketId: string, documentId: string, revisionId: string, minutes: nat, now: Instant)
    | Redeem(ticketId: string, now: Instant)

  datatype Reply = Done | Existing(tombstone: Tombstone) | Redeemed(revisionId: string) | NotFound | Violation

  predicate Live(t: Tables, documentId: string) {
    documentId in t.documents && documentId !in t.tombstones
  }

  /** A ticket that the redeeming update selects. */
  predicate Redeemable(t: Tables, ticketId: string, now: Instant) {
    && ticketId in t.tickets
    && t.tickets[ticketId].redeemedAt.None?
    && t.tickets[ticketId].expiresAt > now
    && t.tickets[ticketId].documentId !in t.tombstones
  }

  /** One statement. A key already taken or a broken check constraint aborts it; a guard that selects
      nothing or a missing parent row is reported as not found. */
  function Apply(t: Tables, s: Statement): (Tables, Reply) {
    match s
    case InsertDocument(d, now) =>
      if d in t.documents then (t, Violation)
      else (t.(documents := t.documents[d := Document(now)]), Done)
    case InsertRevision(r, d, artifact, now) =>
      if d in t.tombstones then (t, NotFound)
      else if r in t.revisions then (t, Violation)
      else if d !in t.documents then (t, NotFound)
      else (t.(revisions := t.revisions[r := Revision(d, artifact, now)]), Done)
    case InsertTombstone(id, d, now) =>
      if d in t.tombstones then (t, Existing(t.tombstones[d]))
      else if d !in t.documents then (t, NotFound)
      else (t.(tombstones := t.tombstones[d := Tombstone(id, now)]), Done)
    case InsertTicket(k, d, r, minutes, now) =>
      if d in t.tombstones then (t, NotFound)
      else if k in t.tickets || minutes == 0 then (t, Violation)
      else if r !in t.revisions || t.revisions[r].documentId != d then (t, NotFound)
      else (t.(tickets := t.tickets[k := Ticket(d, r, now, now + minutes * MINUTE, None)]), Done)
    case Redeem(k, now) =>
      if !Redeemable(t, k, now) then (t, NotFound)
      else if now < t.tickets[k].createdAt then (t, Violation)
      else (t.(tickets := t.tickets[k := t.tickets[k].(redeemedAt := Some(now))]),
            Redeemed(t.tickets[k].revisionId))
  }

  /** What a listing may show: the live documents, under their keys. */
  function LiveKeys(t: Tables): set<Key> {
    set d | d in t.documents && Live(t, d) :: Key(t.documents[d].createdAt, d)
  }

  // ---------------------------------------------------------------- the repository

  /** The repository over its tables. Each method issues its statements in order; `history` holds those
      that were committed since the tables were empty. */
  class Repository {
    var documents: map<string, Document>
    var revisions: map<string, Revision>
    var tombstones: map<string, Tombstone>
    var tickets: map<string, Ticket>
    ghost var history: seq<Statement>

    constructor ()
      ensures Valid() && history == []
    {
      documents, revisions, tombstones, tickets := map[], map[], map[], map[];
      history := [];
    }

    ghost function State(): Tables
      reads this
    {
      Tables(documents, revisions, tombstones, tickets)
    }

    /** The tables are what the committed statements made of them. */
    ghost predicate Valid()
      reads this
    {
      State() == After(history)
    }

    /** One page of the live documents, newest first. */
    method ListDocuments(query: Limit, before: Option<Key>) returns (r: Listing)
      requires Valid()
      ensures r.Invalid? <==> ClampListLimit(query).None?
      ensures r.Found? ==> IsPage(LiveKeys(After(history)), ClampListLimit(query).value, before, r.page)
    {
      var limit := ClampListLimit(query);
      if limit.None? {
        return Invalid;
      }
      var selected := set d | d in documents && d !in tombstones
                        && (before.None? || KeyLess(Key(documents[d].createdAt, d), before.value))
                        :: Key(documents[d].createdAt, d);
      assert selected == Below(LiveKeys(State()), before);
      KeyOrder();
      var rows := Arrange(KeyGreater, selected);
      var page := rows[..if |rows| < limit.value then |rows| else limit.value];
      var next := if |page| == limit.value && page != [] then Some(page[|page| - 1]) else None;
      PrefixIsPage(LiveKeys(State()), limit.value, before, rows, page);
      r := Found(Page(page, next));
    }

    /** The guarded insert, on its own or inside a transaction. */
    method InsertRevisionRow(revisionId: string, documentId: string, artifact: string, now: Instant)
      returns (reply: Reply)
      modifies this`revisions
      ensures (State(), reply) == Apply(old(State()), InsertRevision(revisionId, documentId, artifact, now))
      ensures reply == Done <==> documentId in documents && documentId !in tombstones && revisionId !in old(revisions)
    {
      if documentId in tombstones {
        return NotFound;
      }
      if revisionId in revisions {
        return Violation;
      }
      if documentId !in documents {
        return NotFound;
      }
      revisions := revisions[revisionId := Revision(documentId, artifact, now)];
      return Done;
    }

    /** A new document and its first revision, in one transaction: both rows or neither. */
    method CreateDocument(documentId: string, revisionId: string, artifact: string, now: Instant)
      returns (reply: Reply)
      requires Valid()
      modifies this`documents, this`revisions, this`history
      ensures Valid()
      ensures history == old(history)
                         + if reply == Done then [InsertDocument(documentId, now),
                                                  InsertRevision(revisionId, documentId, artifact, now)] else []
      ensures reply == Done <==> !Created(old(history), documentId) && !Revised(old(history), revisionId)
      ensures var (inserted, first) := Apply(old(State()), InsertDocument(documentId, now));
              var (both, second) := Apply(inserted, InsertRevision(revisionId, documentId, artifact, now));
              && reply == (if first == Done then second else first)
              && State() == if reply == Done then both else old(State())
    {
      CreateReply(history, documentId, revisionId, artifact, now);
      if documentId in documents {
        return Violation;
      }
      var begun := documents;
      documents := documents[documentId := Document(now)];
      reply := InsertRevisionRow(revisionId, documentId, artifact, now);
      if reply != Done {
        documents := begun;
      } else {
        AfterOne(history, InsertDocument(documentId, now));
        history := history + [InsertDocument(documentId, now)];
        AfterOne(history, InsertRevision(revisionId, documentId, artifact, now));
        history := history + [InsertRevision(revisionId, documentId, artifact, now)];
      }
    }

    /** A further revision: looked for first, and guarded again by the insert itself. */
    method AppendRevision(documentId: string, revisionId: string, artifact: string, now: Instant)
      returns (reply: Reply)
      requires Valid()
      modifies this`revisions, this`history
      ensures Valid()
      ensures history == old(history) + if Live(old(State()), documentId)
                                        then [InsertRevision(revisionId, documentId, artifact, now)] else []
      ensures reply == Done <==> Created(old(history), documentId) && !Tombstoned(old(history), documentId)
                                 && !Revised(old(history), revisionId)
      ensures if Live(old(State()), documentId) then
                (State(), reply) == Apply(old(State()), InsertRevision(revisionId, documentId, artifact, now))
              else State() == old(State()) && reply == NotFound
    {
      TablesAreHistory(history, documentId, revisionId, "");
      if documentId !in documents || documentId in tombstones {
        return NotFound;
      }
      reply := InsertRevisionRow(revisionId, documentId, artifact, now);
      AfterOne(history, InsertRevision(revisionId, documentId, artifact, now));
      history := history + [InsertRevision(revisionId, documentId, artifact, now)];
    }

    /** Insert on conflict do nothing, then read the row that was there. */
    method TombstoneDocument(tombstoneId: string, documentId: string, now: Instant) returns (reply: Reply)
      requires Valid()
      modifies this`tombstones, this`history
      ensures Valid() && history == old(history) + [InsertTombstone(tombstoneId, documentId, now)]
      ensures reply == Done <==> Created(old(history), documentId) && !Tombstoned(old(history), documentId)
      ensures (State(), reply) == Apply(old(State()), InsertTombstone(tombstoneId, documentId, now))
    {
      TablesAreHistory(history, documentId, "", "");
      AfterOne(history, InsertTombstone(tombstoneId, documentId, now));
      history := history + [InsertTombstone(tombstoneId, documentId, now)];
      if documentId !in tombstones {
        if documentId !in documents {
          return NotFound;
        }
        tombstones := tombstones[documentId := Tombstone(tombstoneId, now)];
        return Done;
      }
      return Existing(tombstones[documentId]);
    }

    method IssueDownloadTicket(ticketId: string, documentId: string, revisionId: string, minutes: nat, now: Instant)
      returns (reply: Reply)
      requires Valid()
      modifies this`tickets, this`history
      ensures Valid() && history == old(history) + [InsertTicket(ticketId, documentId, revisionId, minutes, now)]
      ensures reply == Done <==> minutes > 0 && RevisedFor(old(history), revisionId, documentId)
                                 && !Tombstoned(old(history), documentId) && !Issued(old(history), ticketId)
      ensures (State(), reply) == Apply(old(State()), InsertTicket(ticketId, documentId, revisionId, minutes, now))
    {
      IssuesExactlyWhen(history, ticketId, documentId, revisionId, minutes, now);
      AfterOne(history, InsertTicket(ticketId, documentId, revisionId, minutes, now));
      history := history + [InsertTicket(ticketId, documentId, revisionId, minutes, now)];
      if documentId in tombstones {
        return NotFound;
      }
      if ticketId in tickets || minutes == 0 {
        return Violation;
      }
      if revisionId !in revisions || revisions[revisionId].documentId != documentId {
        return NotFound;
      }
      tickets := tickets[ticketId := Ticket(documentId, revisionId, now, now + minutes * MINUTE, None)];
      return Done;
    }

    /** The single update that redeems: it succeeds exactly when the history entitles it to. */
    method RedeemDownloadTicket(ticketId: string, now: Instant) returns (reply: Reply)
      requires Valid()
      modifies this`tickets, this`history
      ensures Valid() && history == old(history) + [Redeem(ticketId, now)]
      ensures (State(), reply) == Apply(old(State()), Redeem(ticketId, now))
      ensures reply.Redeemed? <==> exists i :: 0 <= i < |old(history)| && Entitles(history, i, |old(history)|)
    {
      ghost var before := history;
      AfterOne(history, Redeem(ticketId, now));
      history := history + [Redeem(ticketId, now)];
      RedeemsExactlyWhen(history, |before|);
      assert history[..|before|] == before;
      if ticketId !in tickets {
        return NotFound;
      }
      var ticket := tickets[ticketId];
      if ticket.redeemedAt.Some? || ticket.expiresAt <= now || ticket.documentId in tombstones {
        return NotFound;
      }
      if now < ticket.createdAt {
        return Violation;
      }
      tickets := tickets[ticketId := ticket.(redeemedAt := Some(now))];
      return Redeemed(ticket.revisionId);
    }
  }

  // ---------------------------------------------------------------- what every statement keeps

  predicate SameTicket(a: Ticket, b: Ticket) {
    b == a || (a.redeemedAt.None? && b == a.(redeemedAt := b.redeemedAt))
  }

  /** Rows are only added, never changed, but for the first redemption of a ticket. */
  ghost predicate Grows(a: Tables, b: Tables) {
    && (forall d :: d in a.documents ==> d in b.documents && b.documents[d] == a.documents[d])
    && (forall r :: r in a.revisions ==> r in b.revisions && b.revisions[r] == a.revisions[r])
    && (forall d :: d in a.tombstones ==> d in b.tombstones && b.tombstones[d] == a.tombstones[d])
    && (forall k :: k in a.tickets ==> k in b.tickets && SameTicket(a.tickets[k], b.tickets[k]))
  }

  /** For a document already tombstoned nothing is added or redeemed any more. */
  ghost predicate Freezes(a: Tables, b: Tables) {
    && (forall r :: r in b.revisions && b.revisions[r].documentId in a.tombstones ==> r in a.revisions)
    && (forall k :: k in b.tickets && b.tickets[k].documentId in a.tombstones ==>
          k in a.tickets && b.tickets[k] == a.tickets[k])
  }

  ghost predicate Extends(a: Tables, b: Tables) {
    Grows(a, b) && Freezes(a, b)
  }

  lemma TicketStatementGrows(t: Tables, s: Statement)
    requires s.InsertTicket? || s.Redeem?
    ensures Grows(t, Apply(t, s).0)
  {
  }

  lemma RowStatementGrows(t: Tables, s: Statement)
    requires !s.InsertTicket? && !s.Redeem?
    ensures Grows(t, Apply(t, s).0)
  {
  }

  lemma StatementGrows(t: Tables, s: Statement)
    ensures Grows(t, Apply(t, s).0)
  {
    if s.InsertTicket? || s.Redeem? {
      TicketStatementGrows(t, s);
    } else {
      RowStatementGrows(t, s);
    }
  }

  lemma StatementFreezes(t: Tables, s: Statement)
    ensures Freezes(t, Apply(t, s).0)
  {
  }

  lemma StatementExtends(t: Tables, s: Statement)
    ensures Extends(t, Apply(t, s).0)
  {
    StatementGrows(t, s);
    StatementFreezes(t, s);
  }

  lemma ExtendsTransitive(a: Tables, b: Tables, c: Tables)
    requires Extends(a, b) && Extends(b, c)
    ensures Extends(a, c)
  {
  }

  /** Rows refer to rows that exist, a ticket names a revision of its own document, and a redemption
      fell inside the ticket's lifetime. */
  ghost predicate Consistent(t: Tables) {
    && (forall r :: r in t.revisions ==> t.revisions[r].documentId in t.documents)
    && (forall d :: d in t.tombstones ==> d in t.documents)
    && (forall k :: k in t.tickets ==>
          var ticket := t.tickets[k];
          && ticket.revisionId in t.revisions && t.revisions[ticket.revisionId].documentId == ticket.documentId
          && ticket.createdAt < ticket.expiresAt
          && (ticket.redeemedAt.Some? ==> ticket.createdAt <= ticket.redeemedAt.value < ticket.expiresAt))
  }

  lemma StatementKeepsConsistent(t: Tables, s: Statement)
    requires Consistent(t)
    ensures Consistent(Apply(t, s).0)
  {
  }

  // ---------------------------------------------------------------- runs

  /** The tables after a run of statements, in whatever interleaving of callers it arose. */
  function After(run: seq<Statement>): Tables {
    if run == [] then EMPTY else Apply(After(run[..|run| - 1]), run[|run| - 1]).0
  }

  /** The reply to statement `i` of a run. */
  function ReplyAt(run: seq<Statement>, i: nat): Reply
    requires i < |run|
  {
    Apply(After(run[..i]), run[i]).1
  }

  lemma {:induction false} RunsExtend(run: seq<Statement>, i: nat, j: nat)
    requires i <= j <= |run|
    ensures Extends(After(run[..i]), After(run[..j]))
  {
    if i < j {
      RunsExtend(run, i, j - 1);
      assert run[..j][..j - 1] == run[..j - 1];
      StatementExtends(After(run[..j - 1]), run[j - 1]);
      ExtendsTransitive(After(run[..i]), After(run[..j - 1]), After(run[..j]));
    }
  }

  lemma {:induction false} RunsAreConsistent(run: seq<Statement>)
    ensures Consistent(After(run))
  {
    if run != [] {
      RunsAreConsistent(run[..|run| - 1]);
      StatementKeepsConsistent(After(run[..|run| - 1]), run[|run| - 1]);
    }
  }

  lemma AfterOne(run: seq<Statement>, s: Statement)
    ensures After(run + [s]) == Apply(After(run), s).0
  {
    assert (run + [s])[..|run|] == run;
  }

  lemma AfterNext(run: seq<Statement>, i: nat)
    requires i < |run|
    ensures After(run[..i + 1]) == Apply(After(run[..i]), run[i]).0
  {
    assert run[..i + 1][..i] == run[..i];
  }

  /** A ticket is redeemed at most once, over every interleaving. */
  lemma RedeemedAtMostOnce(run: seq<Statement>, i: nat, j: nat)
    requires i < j < |run|
    requires run[i].Redeem? && run[j].Redeem? && run[i].ticketId == run[j].ticketId
    requires ReplyAt(run, i).Redeemed?
    ensures ReplyAt(run, j) == NotFound
  {
    AfterNext(run, i);
    RunsExtend(run, i + 1, j);
  }

  /** A document is tombstoned at most once and never untombstoned: after the statement that did it every
      other attempt finds that same row. */
  lemma TombstonedAtMostOnce(run: seq<Statement>, i: nat, j: nat)
    requires i < j < |run|
    requires run[i].InsertTombstone? && run[j].InsertTombstone? && run[i].documentId == run[j].documentId
    requires ReplyAt(run, i) == Done
    ensures ReplyAt(run, j) == Existing(Tombstone(run[i].tombstoneId, run[i].now))
  {
    AfterNext(run, i);
    RunsExtend(run, i + 1, j);
  }

  /** The document a statement writes a row for, or redeems a ticket of. */
  predicate Concerns(t: Tables, s: Statement, documentId: string) {
    match s
    case InsertRevision(_, d, _, _) => d == documentId
    case InsertTicket(_, d, _, _, _) => d == documentId
    case Redeem(k, _) => k in t.tickets && t.tickets[k].documentId == documentId
    case _ => false
  }

  /** After its tombstone a document receives no revision and no ticket, and none of its tickets is
      redeemed: every such statement is answered as not found. */
  lemma NothingAfterTombstone(run: seq<Statement>, i: nat, j: nat)
    requires i < j < |run|
    requires run[i].InsertTombstone? && ReplyAt(run, i) == Done
    requires Concerns(After(run[..j]), run[j], run[i].documentId)
    ensures ReplyAt(run, j) == NotFound && After(run[..j + 1]) == After(run[..j])
  {
    AfterNext(run, i);
    RunsExtend(run, i + 1, j);
    AfterNext(run, j);
  }

  /** The rows of a tombstoned document are frozen. */
  lemma TombstoneFreezes(run: seq<Statement>, i: nat, j: nat, documentId: string)
    requires i <= j <= |run| && documentId in After(run[..i]).tombstones
    ensures var a, b := After(run[..i]), After(run[..j]);
            && documentId in b.tombstones && b.tombstones[documentId] == a.tombstones[documentId]
            && (forall r :: r in b.revisions && b.revisions[r].documentId == documentId ==>
                  r in a.revisions && a.revisions[r] == b.revisions[r])
            && (forall k :: k in b.tickets && b.tickets[k].documentId == documentId ==>
                  k in a.tickets && a.tickets[k] == b.tickets[k])
  {
    RunsExtend(run, i, j);
  }

  /** What a ticket row was issued as. */
  predicate IssuedAs(ticket: Ticket, s: Statement) {
    && s.InsertTicket?
    && ticket.documentId == s.documentId && ticket.revisionId == s.revisionId
    && ticket.expiresAt == s.now + s.minutes * MINUTE
  }

  lemma NewTicketIsIssued(t: Tables, s: Statement, k: string)
    requires k !in t.tickets && k in Apply(t, s).0.tickets
    ensures IssuedAs(Apply(t, s).0.tickets[k], s) && s.ticketId == k && Apply(t, s).1 == Done
  {
  }

  lemma OldTicketIsKept(t: Tables, s: Statement, k: string)
    requires k in t.tickets
    ensures k in Apply(t, s).0.tickets && SameTicket(t.tickets[k], Apply(t, s).0.tickets[k])
  {
  }

  /** The statement that issued a ticket row. */
  lemma {:induction false} TicketWasIssued(run: seq<Statement>, n: nat, k: string) returns (i: nat)
    requires n <= |run| && k in After(run[..n]).tickets
    ensures i < n && IssuedAs(After(run[..n]).tickets[k], run[i])
    ensures run[i].ticketId == k && ReplyAt(run, i) == Done
    decreases n
  {
    assert n > 0;
    AfterNext(run, n - 1);
    var before := After(run[..n - 1]);
    if k in before.tickets {
      OldTicketIsKept(before, run[n - 1], k);
      i := TicketWasIssued(run, n - 1, k);
    } else {
      NewTicketIsIssued(before, run[n - 1], k);
      i := n - 1;
    }
  }

  // ---------------------------------------------------------------- the store as its history

  predicate Issues(run: seq<Statement>, i: nat, k: string) {
    i < |run| && run[i].InsertTicket? && run[i].ticketId == k && ReplyAt(run, i) == Done
  }

  predicate IsRedeemed(t: Tables, k: string) {
    k in t.tickets && t.tickets[k].redeemedAt.Some?
  }

  predicate RedeemsAt(t: Tables, s: Statement, k: string) {
    s.Redeem? && s.ticketId == k && Apply(t, s).1.Redeemed?
  }

  predicate TombstonesAt(t: Tables, s: Statement, d: string) {
    s.InsertTombstone? && s.documentId == d && Apply(t, s).1 == Done
  }

  predicate CreatesAt(t: Tables, s: Statement, d: string) {
    s.InsertDocument? && s.documentId == d && Apply(t, s).1 == Done
  }

  predicate RevisesAt(t: Tables, s: Statement, r: string) {
    s.InsertRevision? && s.revisionId == r && Apply(t, s).1 == Done
  }

  lemma RedeemStep(t: Tables, s: Statement, k: string)
    ensures IsRedeemed(Apply(t, s).0, k) <==> IsRedeemed(t, k) || RedeemsAt(t, s, k)
  {
  }

  lemma TombstoneStep(t: Tables, s: Statement, d: string)
    ensures d in Apply(t, s).0.tombstones <==> d in t.tombstones || TombstonesAt(t, s, d)
  {
  }

  lemma CreateStep(t: Tables, s: Statement, d: string)
    ensures d in Apply(t, s).0.documents <==> d in t.documents || CreatesAt(t, s, d)
    ensures CreatesAt(t, s, d) ==> d !in t.documents && Apply(t, s).0.documents[d] == Document(s.now)
    ensures d in t.documents ==> Apply(t, s).0.documents[d] == t.documents[d]
  {
  }

  lemma ReviseStep(t: Tables, s: Statement, r: string)
    ensures r in Apply(t, s).0.revisions <==> r in t.revisions || RevisesAt(t, s, r)
    ensures RevisesAt(t, s, r) ==>
              r !in t.revisions && Apply(t, s).0.revisions[r] == Revision(s.documentId, s.artifact, s.now)
    ensures r in t.revisions ==> Apply(t, s).0.revisions[r] == t.revisions[r]
  {
  }

  /** Statement `i` of a run redeems the ticket, inserts the tombstone, the document or the revision. */
  predicate Redeems(run: seq<Statement>, i: nat, k: string) {
    i < |run| && RedeemsAt(After(run[..i]), run[i], k)
  }

  predicate Tombstones(run: seq<Statement>, i: nat, d: string) {
    i < |run| && TombstonesAt(After(run[..i]), run[i], d)
  }

  predicate Creates(run: seq<Statement>, i: nat, d: string) {
    i < |run| && CreatesAt(After(run[..i]), run[i], d)
  }

  predicate Revises(run: seq<Statement>, i: nat, r: string) {
    i < |run| && RevisesAt(After(run[..i]), run[i], r)
  }

  lemma TicketStarts(run: seq<Statement>, i: nat, k: string)
    requires Issues(run, i, k)
    ensures k in After(run[..i + 1]).tickets
    ensures After(run[..i + 1]).tickets[k]
            == Ticket(run[i].documentId, run[i].revisionId, run[i].now, run[i].now + run[i].minutes * MINUTE, None)
  {
    AfterNext(run, i);
  }

  lemma IssuedTicketStays(run: seq<Statement>, i: nat, j: nat, k: string)
    requires i < j <= |run| && Issues(run, i, k)
    ensures k in After(run[..j]).tickets
    ensures IssuedAs(After(run[..j]).tickets[k], run[i]) && After(run[..j]).tickets[k].createdAt == run[i].now
  {
    TicketStarts(run, i, k);
    RunsExtend(run, i + 1, j);
    assert SameTicket(After(run[..i + 1]).tickets[k], After(run[..j]).tickets[k]);
  }

  /** What holds exactly from the first act on holds exactly when there was one. */
  lemma {:induction false} Since(held: nat -> bool, acts: nat -> bool, j: nat)
    requires !held(0) && forall i :: 0 <= i < j ==> (held(i + 1) <==> held(i) || acts(i))
    ensures held(j) <==> exists m :: 0 <= m < j && acts(m)
  {
    if j > 0 {
      Since(held, acts, j - 1);
      assert held(j - 1 + 1) <==> held(j - 1) || acts(j - 1);
    }
  }

  lemma StartsEmpty(run: seq<Statement>)
    ensures After(run[..0]) == EMPTY
  {
    assert run[..0] == [];
  }

  lemma RedeemedNext(run: seq<Statement>, i: nat, k: string)
    requires i < |run|
    ensures IsRedeemed(After(run[..i + 1]), k) <==> IsRedeemed(After(run[..i]), k) || Redeems(run, i, k)
  {
    AfterNext(run, i);
    RedeemStep(After(run[..i]), run[i], k);
  }

  /** The tables are the history: a ticket is marked redeemed exactly when it was redeemed before. */
  lemma RedeemedNow(run: seq<Statement>, j: nat, k: string)
    requires j <= |run|
    ensures IsRedeemed(After(run[..j]), k) <==> exists m :: 0 <= m < j && Redeems(run, m, k)
  {
    var held := (n: nat) => n <= |run| && IsRedeemed(After(run[..n]), k);
    var acts := (m: nat) => Redeems(run, m, k);
    StartsEmpty(run);
    forall i | 0 <= i < j
      ensures held(i + 1) <==> held(i) || acts(i)
    {
      RedeemedNext(run, i, k);
    }
    Since(held, acts, j);
    assert forall m :: 0 <= m < j ==> (acts(m) <==> Redeems(run, m, k));
  }

  lemma TombstonedNext(run: seq<Statement>, i: nat, d: string)
    requires i < |run|
    ensures d in After(run[..i + 1]).tombstones <==> d in After(run[..i]).tombstones || Tombstones(run, i, d)
  {
    AfterNext(run, i);
    TombstoneStep(After(run[..i]), run[i], d);
  }

  /** A tombstone is there exactly when it was inserted before. */
  lemma TombstonedNow(run: seq<Statement>, j: nat, d: string)
    requires j <= |run|
    ensures d in After(run[..j]).tombstones <==> exists m :: 0 <= m < j && Tombstones(run, m, d)
  {
    var held := (n: nat) => n <= |run| && d in After(run[..n]).tombstones;
    var acts := (m: nat) => Tombstones(run, m, d);
    StartsEmpty(run);
    forall i | 0 <= i < j
      ensures held(i + 1) <==> held(i) || acts(i)
    {
      TombstonedNext(run, i, d);
    }
    Since(held, acts, j);
    assert forall m :: 0 <= m < j ==> (acts(m) <==> Tombstones(run, m, d));
  }

  lemma CreatedNext(run: seq<Statement>, i: nat, d: string)
    requires i < |run|
    ensures d in After(run[..i + 1]).documents <==> d in After(run[..i]).documents || Creates(run, i, d)
  {
    AfterNext(run, i);
    CreateStep(After(run[..i]), run[i], d);
  }

  /** A document is there exactly when it was inserted before. */
  lemma DocumentsNow(run: seq<Statement>, j: nat, d: string)
    requires j <= |run|
    ensures d in After(run[..j]).documents <==> exists m :: 0 <= m < j && Creates(run, m, d)
  {
    var held := (n: nat) => n <= |run| && d in After(run[..n]).documents;
    var acts := (m: nat) => Creates(run, m, d);
    StartsEmpty(run);
    forall i | 0 <= i < j
      ensures held(i + 1) <==> held(i) || acts(i)
    {
      CreatedNext(run, i, d);
    }
    Since(held, acts, j);
    assert forall m :: 0 <= m < j ==> (acts(m) <==> Creates(run, m, d));
  }

  /** And its row bears the instant of the insert. */
  lemma DocumentRow(run: seq<Statement>, m: nat, j: nat, d: string)
    requires m < j <= |run| && Creates(run, m, d)
    ensures d in After(run[..j]).documents && After(run[..j]).documents[d] == Document(run[m].now)
  {
    AfterNext(run, m);
    CreateStep(After(run[..m]), run[m], d);
    RunsExtend(run, m + 1, j);
  }

  lemma RevisedNext(run: seq<Statement>, i: nat, r: string)
    requires i < |run|
    ensures r in After(run[..i + 1]).revisions <==> r in After(run[..i]).revisions || Revises(run, i, r)
  {
    AfterNext(run, i);
    ReviseStep(After(run[..i]), run[i], r);
  }

  /** A revision is there exactly when it was inserted before. */
  lemma RevisionsNow(run: seq<Statement>, j: nat, r: string)
    requires j <= |run|
    ensures r in After(run[..j]).revisions <==> exists m :: 0 <= m < j && Revises(run, m, r)
  {
    var held := (n: nat) => n <= |run| && r in After(run[..n]).revisions;
    var acts := (m: nat) => Revises(run, m, r);
    StartsEmpty(run);
    forall i | 0 <= i < j
      ensures held(i + 1) <==> held(i) || acts(i)
    {
      RevisedNext(run, i, r);
    }
    Since(held, acts, j);
    assert forall m :: 0 <= m < j ==> (acts(m) <==> Revises(run, m, r));
  }

  /** And its row is for the document and artifact it was inserted for. */
  lemma RevisionRow(run: seq<Statement>, m: nat, j: nat, r: string)
    requires m < j <= |run| && Revises(run, m, r)
    ensures r in After(run[..j]).revisions
    ensures After(run[..j]).revisions[r] == Revision(run[m].documentId, run[m].artifact, run[m].now)
  {
    AfterNext(run, m);
    ReviseStep(After(run[..m]), run[m], r);
    RunsExtend(run, m + 1, j);
  }

  lemma IssuesStep(t: Tables, s: Statement, k: string)
    ensures k in Apply(t, s).0.tickets <==>
            k in t.tickets || (s.InsertTicket? && s.ticketId == k && Apply(t, s).1 == Done)
  {
  }

  lemma IssuedNext(run: seq<Statement>, i: nat, k: string)
    requires i < |run|
    ensures k in After(run[..i + 1]).tickets <==> k in After(run[..i]).tickets || Issues(run, i, k)
  {
    AfterNext(run, i);
    IssuesStep(After(run[..i]), run[i], k);
  }

  /** A ticket is there exactly when it was issued before. */
  lemma TicketsNow(run: seq<Statement>, j: nat, k: string)
    requires j <= |run|
    ensures k in After(run[..j]).tickets <==> exists m :: 0 <= m < j && Issues(run, m, k)
  {
    var held := (n: nat) => n <= |run| && k in After(run[..n]).tickets;
    var acts := (m: nat) => Issues(run, m, k);
    StartsEmpty(run);
    forall i | 0 <= i < j
      ensures held(i + 1) <==> held(i) || acts(i)
    {
      IssuedNext(run, i, k);
    }
    Since(held, acts, j);
    assert forall m :: 0 <= m < j ==> (acts(m) <==> Issues(run, m, k));
  }

  // ---------------------------------------------------------------- what each statement does, by the history

  ghost predicate Created(history: seq<Statement>, d: string) {
    exists m :: 0 <= m < |history| && Creates(history, m, d)
  }

  ghost predicate Tombstoned(history: seq<Statement>, d: string) {
    exists m :: 0 <= m < |history| && Tombstones(history, m, d)
  }

  ghost predicate Revised(history: seq<Statement>, r: string) {
    exists m :: 0 <= m < |history| && Revises(history, m, r)
  }

  /** The revision was inserted for that document. */
  ghost predicate RevisedFor(history: seq<Statement>, r: string, d: string) {
    exists m :: 0 <= m < |history| && Revises(history, m, r) && history[m].documentId == d
  }

  ghost predicate Issued(history: seq<Statement>, k: string) {
    exists m :: 0 <= m < |history| && Issues(history, m, k)
  }

  lemma TablesAreHistory(history: seq<Statement>, d: string, r: string, k: string)
    ensures d in After(history).documents <==> Created(history, d)
    ensures d in After(history).tombstones <==> Tombstoned(history, d)
    ensures r in After(history).revisions <==> Revised(history, r)
    ensures k in After(history).tickets <==> Issued(history, k)
  {
    assert history[..|history|] == history;
    DocumentsNow(history, |history|, d);
    TombstonedNow(history, |history|, d);
    RevisionsNow(history, |history|, r);
    TicketsNow(history, |history|, k);
  }

  lemma RevisionOfDocument(history: seq<Statement>, r: string, d: string)
    ensures r in After(history).revisions && After(history).revisions[r].documentId == d <==> RevisedFor(history, r, d)
  {
    assert history[..|history|] == history;
    RevisionsNow(history, |history|, r);
    forall m | 0 <= m < |history| && Revises(history, m, r)
      ensures r in After(history).revisions && After(history).revisions[r].documentId == history[m].documentId
    {
      RevisionRow(history, m, |history|, r);
    }
  }

  /** A document is inserted exactly when no earlier statement inserted its id. */
  lemma CreatesExactlyWhen(history: seq<Statement>, d: string, now: Instant)
    ensures Apply(After(history), InsertDocument(d, now)).1 == if Created(history, d) then Violation else Done
  {
    TablesAreHistory(history, d, "", "");
  }

  /** A revision is inserted exactly when an earlier statement inserted its document, none tombstoned the
      document and none inserted that revision id. */
  lemma RevisesExactlyWhen(history: seq<Statement>, r: string, d: string, artifact: string, now: Instant)
    ensures Apply(After(history), InsertRevision(r, d, artifact, now)).1
            == if Tombstoned(history, d) then NotFound
               else if Revised(history, r) then Violation
               else if !Created(history, d) then NotFound
               else Done
  {
    TablesAreHistory(history, d, r, "");
  }

  /** A document and its first revision are inserted exactly when neither id was inserted before. */
  lemma CreateReply(history: seq<Statement>, d: string, r: string, artifact: string, now: Instant)
    ensures d in After(history).documents <==> Created(history, d)
    ensures !Created(history, d) ==>
              Apply(Apply(After(history), InsertDocument(d, now)).0, InsertRevision(r, d, artifact, now)).1
              == if Revised(history, r) then Violation else Done
  {
    TablesAreHistory(history, d, r, "");
    RunsAreConsistent(history);
  }

  /** A tombstone is inserted exactly when an earlier statement inserted its document and none tombstoned it. */
  lemma TombstonesExactlyWhen(history: seq<Statement>, id: string, d: string, now: Instant)
    ensures var reply := Apply(After(history), InsertTombstone(id, d, now)).1;
            if Tombstoned(history, d) then reply.Existing?
            else reply == if Created(history, d) then Done else NotFound
  {
    TablesAreHistory(history, d, "", "");
  }

  /** A ticket is issued exactly when its lifetime is positive, an earlier statement inserted its revision
      for its document, none tombstoned the document and none issued that ticket id. */
  lemma IssuesExactlyWhen(history: seq<Statement>, k: string, d: string, r: string, minutes: nat, now: Instant)
    ensures Apply(After(history), InsertTicket(k, d, r, minutes, now)).1
            == if Tombstoned(history, d) then NotFound
               else if Issued(history, k) || minutes == 0 then Violation
               else if !RevisedFor(history, r, d) then NotFound
               else Done
  {
    TablesAreHistory(history, d, r, k);
    RevisionOfDocument(history, r, d);
  }

  /** Over every interleaving a redemption succeeds exactly when its ticket was issued before, the clock
      stands in the ticket's lifetime, no earlier redemption of it succeeded and its document was not
      tombstoned before; and it then hands out the revision that was issued. */
  lemma RedeemsExactlyWhen(run: seq<Statement>, j: nat)
    requires j < |run| && run[j].Redeem?
    ensures ReplyAt(run, j).Redeemed? <==> exists i :: 0 <= i < j && Entitles(run, i, j)
    ensures forall i :: 0 <= i < j && Entitles(run, i, j) ==> ReplyAt(run, j) == Redeemed(run[i].revisionId)
  {
    var k := run[j].ticketId;
    if ReplyAt(run, j).Redeemed? {
      var i := TicketWasIssued(run, j, k);
      IssuedTicketStays(run, i, j, k);
      RedeemedNow(run, j, k);
      TombstonedNow(run, j, run[i].documentId);
      assert Entitles(run, i, j);
    }
    forall i | 0 <= i < j && Entitles(run, i, j)
      ensures ReplyAt(run, j) == Redeemed(run[i].revisionId)
    {
      IssuedTicketStays(run, i, j, k);
      RedeemedNow(run, j, k);
      TombstonedNow(run, j, run[i].documentId);
    }
  }

  /** Statement `i` issued a ticket that statement `j` may redeem, by the history alone. */
  ghost predicate Entitles(run: seq<Statement>, i: nat, j: nat)
    requires j < |run| && run[j].Redeem?
  {
    && Issues(run, i, run[j].ticketId)
    && run[i].now <= run[j].now < run[i].now + run[i].minutes * 60 * 1000000
    && (forall m :: 0 <= m < j ==> !Redeems(run, m, run[j].ticketId))
    && (forall m :: 0 <= m < j ==> !Tombstones(run, m, run[i].documentId))
  }

  /** A redemption pays out exactly what was issued: some earlier statement issued the ticket, for the
      revision now handed out, and it has not expired; that revision belongs to the ticket's document,
      and the document is not tombstoned. */
  lemma RedemptionIsEarned(run: seq<Statement>, j: nat)
    requires j < |run| && run[j].Redeem? && ReplyAt(run, j).Redeemed?
    ensures exists i ::
      && 0 <= i < j && run[i].InsertTicket? && run[i].ticketId == run[j].ticketId && ReplyAt(run, i) == Done
      && ReplyAt(run, j) == Redeemed(run[i].revisionId)
      && run[j].now < run[i].now + run[i].minutes * 60 * 1000000
      && run[i].revisionId in After(run[..j]).revisions
      && After(run[..j]).revisions[run[i].revisionId].documentId == run[i].documentId
      && Live(After(run[..j]), run[i].documentId)
  {
    RunsAreConsistent(run[..j]);
    var i := TicketWasIssued(run, j, run[j].ticketId);
  }
}
