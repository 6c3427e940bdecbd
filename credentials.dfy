/**
 * The credentials controller over an in-memory `credenciales` table and an
 * append-only `audit_logs` table. Every handler receives the caller's id
 * (bound by the authentication middleware) separately from the request body,
 * and every single-row query filters on both `id_c` and `id_user`.
 */
module Credentials {
  import opened Wrappers
  import opened Json
  import opened JsText
  import SecretRecord

  type Timestamp = int

  /** A row of `credenciales`; its `id_c` is the key under which the table holds it. */
  datatype Row = Row(
    idUser: int,
    service: Option<string>,
    accountUsername: Option<string>,
    passwEncr: Option<string>,
    url: Option<string>,
    notas: Option<string>,
    createdDate: Timestamp,
    updateDate: Timestamp)

  /** The columns the list, get-by-id and update queries select: all but `passw_encr`. */
  datatype Summary = Summary(
    idC: nat,
    idUser: int,
    service: Option<string>,
    accountUsername: Option<string>,
    url: Option<string>,
    notas: Option<string>,
    createdDate: Timestamp,
    updateDate: Timestamp)

  /** The columns the create query selects. */
  datatype CreatedSummary = CreatedSummary(
    idC: nat,
    service: Option<string>,
    accountUsername: Option<string>,
    url: Option<string>,
    createdDate: Timestamp)

  /** A row of `audit_logs`. */
  datatype AuditEntry = AuditEntry(idUser: int, idCredential: nat, action: string)

  const ShowPassword: string := "SHOW_PASSWORD"

  datatype Body =
    | Listing(items: seq<Summary>)
    | One(item: Summary)
    | Created(created: CreatedSummary)
    | Password(password: string)
    | Message(message: string)

  datatype Reply = Reply(status: nat, body: Body)

  const NotFound: Reply := Reply(404, Message("Credential not found"))
  const Deleted: Reply := Reply(200, Message("Credential deleted successfully"))
  /** What `null.split(":")` throws when a row has no stored password. */
  const NullRecordError: string := "Cannot read properties of null (reading 'split')"

  /** `{ service, account_username, passw_encr, url, notas }` of a create request. */
  datatype CreateBody = CreateBody(
    service: JsonField, accountUsername: JsonField, passwEncr: JsonField,
    url: JsonField, notas: JsonField)

  /** `{ service, account_username, url, notas }` of an update request. */
  datatype UpdateBody = UpdateBody(
    service: JsonField, accountUsername: JsonField, url: JsonField, notas: JsonField)

  /** The value an insert stores for a body field: the string, else null. */
  function Inserted(f: JsonField): Option<string> {
    if f.Str? then Some(f.s) else None
  }

  /** A row owned by `userId` is stored under `id`: the `(id_c, id_user)` filter matches. */
  predicate Owned(rows: map<nat, Row>, userId: int, id: nat) {
    id in rows && rows[id].idUser == userId
  }

  function Project(id: nat, row: Row): Summary {
    Summary(id, row.idUser, row.service, row.accountUsername, row.url, row.notas,
            row.createdDate, row.updateDate)
  }

  /**
   * The `search` filter: absent or empty means no filter; otherwise
   * `service ILIKE '%search%'`, which a null service never satisfies.
   */
  function ServiceMatches(service: Option<string>, search: Option<string>): (b: bool)
    ensures search.None? || search == Some("") ==> b
    ensures service.None? ==> (b <==> search.None? || search == Some(""))
  {
    match search
    case None => true
    case Some(q) => q == "" || (service.Some? && ContainsIgnoreCase(service.value, q))
  }

  /** A real search keeps a row exactly when its lower-cased service has the lower-cased search in it. */
  lemma ServiceMatchesSearch(service: string, q: string)
    requires q != ""
    ensures ServiceMatches(Some(service), Some(q)) <==> exists i :: OccursAt(Lower(service), Lower(q), i)
  {
  }

  /** Ids of the rows the list query keeps. */
  function MatchingIds(rows: map<nat, Row>, userId: int, search: Option<string>): set<nat> {
    set k | k in rows && rows[k].idUser == userId && ServiceMatches(rows[k].service, search)
  }

  /**
   * `ORDER BY created_date DESC`; rows with the same date, whose order the
   * database leaves open, are taken by ascending id.
   */
  predicate Before(rows: map<nat, Row>, a: nat, b: nat)
    requires a in rows && b in rows
  {
    rows[a].createdDate > rows[b].createdDate
    || (rows[a].createdDate == rows[b].createdDate && a < b)
  }

  predicate IsFirst(rows: map<nat, Row>, ids: set<nat>, k: nat)
    requires ids <= rows.Keys
  {
    k in ids && forall j :: j in ids && j != k ==> Before(rows, k, j)
  }

  lemma FirstExists(rows: map<nat, Row>, ids: set<nat>)
    requires ids <= rows.Keys && ids != {}
    ensures exists k :: IsFirst(rows, ids, k)
  {
    var x :| x in ids;
    if ids != {x} {
      FirstExists(rows, ids - {x});
      var k :| IsFirst(rows, ids - {x}, k);
      if Before(rows, x, k) {
        forall j | j in ids && j != x ensures Before(rows, x, j) {
          if j != k { assert Before(rows, k, j); }
        }
        assert IsFirst(rows, ids, x);
      } else {
        assert IsFirst(rows, ids, k);
      }
    } else {
      assert IsFirst(rows, ids, x);
    }
  }

  /** The id that comes first in the listing order. */
  function First(rows: map<nat, Row>, ids: set<nat>): (k: nat)
    requires ids <= rows.Keys && ids != {}
    ensures IsFirst(rows, ids, k)
  {
    FirstExists(rows, ids);
    var k :| IsFirst(rows, ids, k); k
  }

  /** The ids of `ids` in listing order, each once. */
  function Ordered(rows: map<nat, Row>, ids: set<nat>): (r: seq<nat>)
    requires ids <= rows.Keys
    ensures |r| == |ids|
    ensures forall k :: k in r <==> k in ids
    ensures forall i, j :: 0 <= i < j < |r| ==> Before(rows, r[i], r[j])
    decreases ids
  {
    if ids == {} then []
    else
      var k := First(rows, ids);
      var rest := Ordered(rows, ids - {k});
      assert forall j :: j in rest ==> Before(rows, k, j);
      [k] + rest
  }

  function Summaries(rows: map<nat, Row>, ids: seq<nat>): (s: seq<Summary>)
    requires forall k :: k in ids ==> k in rows
    ensures |s| == |ids|
    ensures forall i :: 0 <= i < |ids| ==> s[i] == Project(ids[i], rows[ids[i]])
  {
    seq(|ids|, i requires 0 <= i < |ids| => Project(ids[i], rows[ids[i]]))
  }

  /**
   * `getCredentials`: the caller's rows whose service matches the search, as
   * summaries without `passw_encr`, newest first, each row exactly once.
   */
  function ListCredentials(rows: map<nat, Row>, userId: int, search: Option<string>): (r: Reply)
    ensures r.status == 200 && r.body.Listing?
    ensures forall i :: 0 <= i < |r.body.items| ==>
      var s := r.body.items[i];
      && Owned(rows, userId, s.idC)
      && ServiceMatches(s.service, search)
      && s == Project(s.idC, rows[s.idC])
    ensures forall k :: Owned(rows, userId, k) && ServiceMatches(rows[k].service, search) ==>
      Project(k, rows[k]) in r.body.items
    ensures forall i, j :: 0 <= i < j < |r.body.items| ==>
      r.body.items[i].createdDate >= r.body.items[j].createdDate
      && r.body.items[i].idC != r.body.items[j].idC
  {
    var ids := Ordered(rows, MatchingIds(rows, userId, search));
    var items := Summaries(rows, ids);
    assert forall k :: Owned(rows, userId, k) && ServiceMatches(rows[k].service, search) ==>
      k in ids && Project(k, rows[k]) in items by {
      forall k | Owned(rows, userId, k) && ServiceMatches(rows[k].service, search)
        ensures k in ids && Project(k, rows[k]) in items
      {
        assert k in MatchingIds(rows, userId, search);
        var i :| 0 <= i < |ids| && ids[i] == k;
        assert items[i] == Project(k, rows[k]);
      }
    }
    Reply(200, Listing(items))
  }

  /** `getCredentialById`: the caller's own row under `id`, else 404. */
  function GetCredentialById(rows: map<nat, Row>, userId: int, id: nat): (r: Reply)
    ensures r.status == 200 || r == NotFound
    ensures r.status == 200 <==> Owned(rows, userId, id)
    ensures r.status == 200 ==> r.body == One(Project(id, rows[id])) && r.body.item.idUser == userId
  {
    if Owned(rows, userId, id) then Reply(200, One(Project(id, rows[id]))) else NotFound
  }

  /**
   * The two tables look the same to `userId` through the summary columns: the
   * same ids are theirs, with the same summaries. Other users' rows and every
   * `passw_encr` may differ.
   */
  ghost predicate SameView(rows1: map<nat, Row>, rows2: map<nat, Row>, userId: int) {
    forall k :: (Owned(rows1, userId, k) <==> Owned(rows2, userId, k))
      && (Owned(rows1, userId, k) ==> Project(k, rows1[k]) == Project(k, rows2[k]))
  }

  lemma {:induction false} OrderedAgrees(rows1: map<nat, Row>, rows2: map<nat, Row>, ids: set<nat>)
    requires ids <= rows1.Keys && ids <= rows2.Keys
    requires forall k :: k in ids ==> rows1[k].createdDate == rows2[k].createdDate
    ensures Ordered(rows1, ids) == Ordered(rows2, ids)
    decreases ids
  {
    if ids != {} {
      var k1 := First(rows1, ids);
      var k2 := First(rows2, ids);
      assert IsFirst(rows2, ids, k1);
      OrderedAgrees(rows1, rows2, ids - {k1});
    }
  }

  /** Tables that look the same to the caller select the same ids, with the same summaries. */
  lemma MatchingAgrees(rows1: map<nat, Row>, rows2: map<nat, Row>, userId: int, search: Option<string>)
    requires SameView(rows1, rows2, userId)
    ensures MatchingIds(rows1, userId, search) == MatchingIds(rows2, userId, search)
    ensures forall k :: k in MatchingIds(rows1, userId, search) ==> Project(k, rows1[k]) == Project(k, rows2[k])
  {
    forall k ensures k in MatchingIds(rows1, userId, search) <==> k in MatchingIds(rows2, userId, search) {
      assert Owned(rows1, userId, k) ==> Project(k, rows1[k]) == Project(k, rows2[k]);
    }
  }

  lemma SummariesAgree(rows1: map<nat, Row>, rows2: map<nat, Row>, ids: seq<nat>)
    requires forall k :: k in ids ==> k in rows1 && k in rows2 && Project(k, rows1[k]) == Project(k, rows2[k])
    ensures Summaries(rows1, ids) == Summaries(rows2, ids)
  {
  }

  /**
   * The list never depends on stored ciphertexts nor on other users' rows:
   * tables that look the same to the caller give the same reply.
   */
  lemma ListIgnoresSecretsAndOthers(rows1: map<nat, Row>, rows2: map<nat, Row>, userId: int, search: Option<string>)
    requires SameView(rows1, rows2, userId)
    ensures ListCredentials(rows1, userId, search) == ListCredentials(rows2, userId, search)
  {
    var ids := MatchingIds(rows1, userId, search);
    MatchingAgrees(rows1, rows2, userId, search);
    forall k | k in ids ensures rows1[k].createdDate == rows2[k].createdDate {
      assert Project(k, rows1[k]).createdDate == Project(k, rows2[k]).createdDate;
    }
    OrderedAgrees(rows1, rows2, ids);
    SummariesAgree(rows1, rows2, Ordered(rows1, ids));
  }

  /** The same for get-by-id: a row is never read through another user's id. */
  lemma GetIgnoresSecretsAndOthers(rows1: map<nat, Row>, rows2: map<nat, Row>, userId: int, id: nat)
    requires SameView(rows1, rows2, userId)
    ensures GetCredentialById(rows1, userId, id) == GetCredentialById(rows2, userId, id)
  {
    assert Owned(rows1, userId, id) ==> Project(id, rows1[id]) == Project(id, rows2[id]);
  }

  /** The row after `.update({ service, account_username, url, notas })`. */
  function Updated(row: Row, body: UpdateBody): (r: Row)
    ensures r.idUser == row.idUser && r.passwEncr == row.passwEncr
    ensures r.createdDate == row.createdDate && r.updateDate == row.updateDate
    ensures body.service.Absent? ==> r.service == row.service
    ensures body.accountUsername.Absent? ==> r.accountUsername == row.accountUsername
    ensures body.url.Absent? ==> r.url == row.url
    ensures body.notas.Absent? ==> r.notas == row.notas
    ensures !body.service.Absent? ==> r.service == Inserted(body.service)
    ensures !body.accountUsername.Absent? ==> r.accountUsername == Inserted(body.accountUsername)
    ensures !body.url.Absent? ==> r.url == Inserted(body.url)
    ensures !body.notas.Absent? ==> r.notas == Inserted(body.notas)
  {
    row.(
      service := if body.service.Absent? then row.service else Inserted(body.service),
      accountUsername := if body.accountUsername.Absent? then row.accountUsername else Inserted(body.accountUsername),
      url := if body.url.Absent? then row.url else Inserted(body.url),
      notas := if body.notas.Absent? then row.notas else Inserted(body.notas))
  }

  /** Updating a row and reading it back shows the body's values, and nothing of `passw_encr`. */
  lemma UpdateThenGet(rows: map<nat, Row>, userId: int, id: nat, body: UpdateBody)
    requires Owned(rows, userId, id)
    ensures var after := rows[id := Updated(rows[id], body)];
      && Owned(after, userId, id)
      && after[id].passwEncr == rows[id].passwEncr
      && GetCredentialById(after, userId, id).body.item.service
         == (if body.service.Absent? then rows[id].service else Inserted(body.service))
  {
  }

  class CredentialStore {
    /** `credenciales`, keyed by `id_c`. */
    var rows: map<nat, Row>
    /** `audit_logs`, in insertion order. */
    var auditLogs: seq<AuditEntry>
    /** The next value of the `id_c` sequence. */
    var nextId: nat

    ghost predicate Valid()
      reads this
    {
      forall k :: k in rows ==> k < nextId
    }

    constructor ()
      ensures Valid() && rows == map[] && auditLogs == []
    {
      rows := map[];
      auditLogs := [];
      nextId := 1;
    }

    /**
     * `createCredential`: inserts one row owned by the caller, with the body's
     * `passw_encr` stored verbatim, and replies 201 with the new row's summary.
     */
    method CreateCredential(userId: int, body: CreateBody, now: Timestamp) returns (reply: Reply)
      requires Valid()
      modifies this`rows, this`nextId
      ensures Valid()
      ensures old(nextId) !in old(rows)
      ensures rows == old(rows)[old(nextId) := Row(userId, Inserted(body.service),
        Inserted(body.accountUsername), Inserted(body.passwEncr), Inserted(body.url),
        Inserted(body.notas), now, now)]
      ensures reply == Reply(201, Created(CreatedSummary(old(nextId), Inserted(body.service),
        Inserted(body.accountUsername), Inserted(body.url), now)))
    {
      var id := nextId;
      var row := Row(userId, Inserted(body.service), Inserted(body.accountUsername),
                     Inserted(body.passwEncr), Inserted(body.url), Inserted(body.notas), now, now);
      rows := rows[id := row];
      nextId := nextId + 1;
      reply := Reply(201, Created(CreatedSummary(id, row.service, row.accountUsername, row.url, now)));
    }

    /**
     * `updateCredential`: changes the four editable columns of the caller's
     * own row; any other id, or another user's row, gives 404 and no change.
     */
    method UpdateCredential(userId: int, id: nat, body: UpdateBody) returns (reply: Reply)
      requires Valid()
      modifies this`rows
      ensures Valid()
      ensures Owned(old(rows), userId, id) ==>
        && rows == old(rows)[id := Updated(old(rows)[id], body)]
        && reply == Reply(200, One(Project(id, rows[id])))
      ensures !Owned(old(rows), userId, id) ==> rows == old(rows) && reply == NotFound
    {
      if Owned(rows, userId, id) {
        rows := rows[id := Updated(rows[id], body)];
        reply := Reply(200, One(Project(id, rows[id])));
      } else {
        reply := NotFound;
      }
    }

    /**
     * `deleteCredential`: removes exactly the caller's own row under `id`;
     * otherwise 404 and no change.
     */
    method DeleteCredential(userId: int, id: nat) returns (reply: Reply)
      requires Valid()
      modifies this`rows
      ensures Valid()
      ensures Owned(old(rows), userId, id) ==> rows == old(rows) - {id} && reply == Deleted
      ensures !Owned(old(rows), userId, id) ==> rows == old(rows) && reply == NotFound
    {
      if Owned(rows, userId, id) {
        rows := rows - {id};
        reply := Deleted;
      } else {
        reply := NotFound;
      }
    }

    /**
     * `revealCredential`: the ownership check comes first; then the stored
     * record is decrypted; only a successful decryption is audited, with one
     * `SHOW_PASSWORD` entry when the store accepts the insert (whose error
     * the handler ignores, so a lost audit row still returns the password).
     */
    method RevealCredential(userId: int, id: nat, decipher: SecretRecord.Decipher, auditStored: bool)
      returns (reply: Reply)
      requires Valid()
      modifies this`auditLogs
      ensures Valid()
      ensures !Owned(rows, userId, id) ==> reply == NotFound && auditLogs == old(auditLogs)
      ensures Owned(rows, userId, id) && rows[id].passwEncr.None? ==>
        reply == Reply(500, Message(NullRecordError)) && auditLogs == old(auditLogs)
      ensures Owned(rows, userId, id) && rows[id].passwEncr.Some? ==>
        var record := SecretRecord.ParseRecord(rows[id].passwEncr.value);
        var plain := decipher(record.0, record.1);
        && (plain.Failure? ==> reply == Reply(500, Message(plain.error)) && auditLogs == old(auditLogs))
        && (plain.Success? ==>
              && reply == Reply(200, Password(plain.value))
              && auditLogs == old(auditLogs)
                 + (if auditStored then [AuditEntry(userId, id, ShowPassword)] else []))
    {
      if !Owned(rows, userId, id) {
        return NotFound;
      }
      var stored := rows[id].passwEncr;
      if stored.None? {
        return Reply(500, Message(NullRecordError));
      }
      var decrypted := SecretRecord.Decrypt(stored.value, decipher);
      if decrypted.Failure? {
        return Reply(500, Message(decrypted.error));
      }
      if auditStored {
        auditLogs := auditLogs + [AuditEntry(userId, id, ShowPassword)];
      }
      reply := Reply(200, Password(decrypted.value));
    }
  }

  /**
   * A new vault: the list is empty; after one create, revealing the new
   * credential returns its deciphered record and leaves exactly one audit entry.
   */
  method CreateThenReveal(userId: int, body: CreateBody, now: Timestamp, decipher: SecretRecord.Decipher, record: string)
    returns (listed: Reply, revealed: Reply, audit: seq<AuditEntry>)
    requires body.passwEncr == Str(record)
    requires decipher(SecretRecord.ParseRecord(record).0, SecretRecord.ParseRecord(record).1).Success?
    ensures listed == Reply(200, Listing([]))
    ensures revealed == Reply(200, Password(decipher(SecretRecord.ParseRecord(record).0, SecretRecord.ParseRecord(record).1).value))
    ensures |audit| == 1 && audit[0].idUser == userId && audit[0].action == ShowPassword
  {
    var store := new CredentialStore();
    listed := ListCredentials(store.rows, userId, None);
    assert MatchingIds(store.rows, userId, None) == {};
    var created := store.CreateCredential(userId, body, now);
    revealed := store.RevealCredential(userId, created.body.created.idC, decipher, true);
    audit := store.auditLogs;
  }
}
