/**
 * The Dashboard page's list logic: the API rows of `GET /credentials` mapped
 * to the page's `Credential` shape, the search filter, and the choice of
 * what the list area shows.
 */
module Dashboard {
  import opened Wrappers
  import opened JsText

  /** A row of the `GET /credentials` response as the page reads it. */
  datatype ApiRow = ApiRow(
    idC: int,
    service: string,
    accountUsername: string,
    url: Option<string>,
    notas: Option<string>,
    createdDate: string,
    updateDate: string)

  /** The page's `Credential` interface. */
  datatype Credential = Credential(
    id: string,
    serviceName: string,
    accountUsername: string,
    password: string,
    url: Option<string>,
    notes: Option<string>,
    createdAt: string,
    updatedAt: string)

  function Digit(d: nat): char
    requires d < 10
  {
    "0123456789"[d]
  }

  function NatToString(n: nat): (s: string)
    ensures |s| >= 1 && '0' <= s[0] <= '9'
    decreases n
  {
    if n < 10 then [Digit(n)] else NatToString(n / 10) + [Digit(n % 10)]
  }

  /** `String(n)` of an integer id. */
  function IntToString(n: int): (s: string)
    ensures |s| >= 1 && (s[0] == '-' <==> n < 0)
  {
    if n < 0 then "-" + NatToString(-n) else NatToString(n)
  }

  predicate IsDigits(s: string) {
    |s| >= 1 && forall i :: 0 <= i < |s| ==> '0' <= s[i] <= '9'
  }

  function DigitsValue(s: string): nat
    requires IsDigits(s)
    decreases |s|
  {
    var last := (s[|s| - 1] as int - '0' as int) as nat;
    if |s| == 1 then last
    else
      DigitsValue(s[..|s| - 1]) * 10 + last
  }

  /** The value PostgREST reads back from the decimal text of an id. */
  function DecimalValue(s: string): Option<int> {
    if |s| >= 1 && s[0] == '-' && IsDigits(s[1..]) then Some(-(DigitsValue(s[1..]) as int))
    else if IsDigits(s) then Some(DigitsValue(s))
    else None
  }

  lemma {:induction false} NatToStringValue(n: nat)
    ensures IsDigits(NatToString(n)) && DigitsValue(NatToString(n)) == n
    decreases n
  {
    var s := NatToString(n);
    if n >= 10 {
      NatToStringValue(n / 10);
      var p := NatToString(n / 10);
      assert s[..|s| - 1] == p;
      assert s[|s| - 1] == Digit(n % 10);
      assert IsDigits(s) by {
        forall i | 0 <= i < |s| ensures '0' <= s[i] <= '9' {
          if i < |s| - 1 { assert s[i] == p[i]; }
        }
      }
    }
  }

  /** The text id of a credential denotes its `id_c`: the page's id addresses the same row. */
  lemma IdRoundTrip(n: int)
    ensures DecimalValue(IntToString(n)) == Some(n)
  {
    if n < 0 {
      NegativeIdRoundTrip(-n);
      assert IntToString(n) == "-" + NatToString(-n);
    } else {
      NonNegativeIdRoundTrip(n);
      assert IntToString(n) == NatToString(n);
    }
  }

  /** The text of a non-negative id is its digits, read back as the id. */
  lemma NonNegativeIdRoundTrip(n: nat)
    ensures DecimalValue(NatToString(n)) == Some(n)
  {
    var d := NatToString(n);
    NatToStringValue(n);
    assert d[0] != '-';
  }

  /** The text of a negative id starts with '-' followed by the digits of its magnitude. */
  lemma NegativeIdRoundTrip(m: nat)
    requires m > 0
    ensures DecimalValue("-" + NatToString(m)) == Some(-(m as int))
  {
    var d := NatToString(m);
    NatToStringValue(m);
    assert ("-" + d)[1..] == d;
  }

  /** Distinct rows get distinct text ids. */
  lemma IdInjective(a: int, b: int)
    requires IntToString(a) == IntToString(b)
    ensures a == b
  {
    IdRoundTrip(a);
    IdRoundTrip(b);
  }

  /** One element of the `.map` in `fetchCredentials`. */
  function ToCredential(item: ApiRow): (c: Credential)
    ensures DecimalValue(c.id) == Some(item.idC)
    ensures c.serviceName == item.service && c.accountUsername == item.accountUsername
    ensures c.url == item.url && c.notes == item.notas
    ensures c.createdAt == item.createdDate && c.updatedAt == item.updateDate
    ensures c.password == ""
  {
    IdRoundTrip(item.idC);
    Credential(IntToString(item.idC), item.service, item.accountUsername, "",
               item.url, item.notas, item.createdDate, item.updateDate)
  }

  /** `(data || []).map(...)`: a missing body is the empty list; order and length are kept. */
  function MapRows(data: Option<seq<ApiRow>>): (r: seq<Credential>)
    ensures data.None? ==> r == []
    ensures data.Some? ==> |r| == |data.value|
    ensures data.Some? ==> forall i :: 0 <= i < |r| ==> r[i] == ToCredential(data.value[i])
  {
    match data
    case None => []
    case Some(rows) => seq(|rows|, i requires 0 <= i < |rows| => ToCredential(rows[i]))
  }

  /** The page never holds a plaintext password after loading the list. */
  lemma MappedPasswordsEmpty(data: Option<seq<ApiRow>>)
    ensures forall c :: c in MapRows(data) ==> c.password == ""
  {
  }

  predicate Matches(c: Credential, search: string) {
    ContainsIgnoreCase(c.serviceName, search)
  }

  /** `credentials.filter(c => c.service_name.toLowerCase().includes(search.toLowerCase()))`. */
  function Filter(credentials: seq<Credential>, search: string): (r: seq<Credential>)
    ensures |r| <= |credentials|
    ensures forall c :: c in r <==> c in credentials && Matches(c, search)
  {
    if credentials == [] then []
    else
      var rest := Filter(credentials[1..], search);
      assert forall c :: c in credentials <==> c == credentials[0] || c in credentials[1..];
      if Matches(credentials[0], search) then [credentials[0]] + rest else rest
  }

  /** Filtering works element by element: it keeps the relative order of what it keeps. */
  lemma {:induction false} FilterAppend(s: seq<Credential>, t: seq<Credential>, search: string)
    ensures Filter(s + t, search) == Filter(s, search) + Filter(t, search)
  {
    if s != [] {
      assert (s + t)[1..] == s[1..] + t;
      FilterAppend(s[1..], t, search);
    } else {
      assert s + t == t;
    }
  }

  /** An empty search keeps every credential. */
  lemma {:induction false} FilterEmptySearch(credentials: seq<Credential>)
    ensures Filter(credentials, "") == credentials
  {
    if credentials != [] {
      ContainsEmpty(credentials[0].serviceName);
      FilterEmptySearch(credentials[1..]);
    }
  }

  const NoResults: string := "No se encontraron resultados"
  const NoCredentials: string := "Aún no tienes credenciales guardadas"

  /** What the list area shows. */
  datatype View = Spinner | EmptyState(message: string) | Table(rows: seq<Credential>)

  function Render(loading: bool, credentials: seq<Credential>, search: string): (v: View)
    ensures v == Spinner <==> loading
    ensures v.EmptyState? <==> !loading && Filter(credentials, search) == []
    ensures v.Table? ==> v.rows == Filter(credentials, search) && v.rows != []
  {
    var filtered := Filter(credentials, search);
    if loading then Spinner
    else if |filtered| == 0 then EmptyState(if search != "" then NoResults else NoCredentials)
    else Table(filtered)
  }

  /**
   * With nothing to show, the message says "no results" exactly when a search
   * is typed; "no credentials yet" appears only when the user really has none.
   */
  lemma EmptyStateMessage(credentials: seq<Credential>, search: string)
    ensures Render(false, credentials, search) == EmptyState(NoResults)
      <==> search != "" && Filter(credentials, search) == []
    ensures Render(false, credentials, search) == EmptyState(NoCredentials)
      <==> search == "" && credentials == []
  {
    if search == "" {
      FilterEmptySearch(credentials);
    }
  }
}
