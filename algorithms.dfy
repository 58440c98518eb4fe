/** The signing algorithms libjwt offers and the table that maps the values of
    the `jwt_issue_algorithm` directive onto them (`ngx_http_jwt_algorithms`). */
module Algorithms {
  import opened Octets

  /** libjwt's `jwt_alg_t`, without its `JWT_ALG_TERM` end marker. */
  datatype Alg =
    | NoneAlg
    | HS256 | HS384 | HS512
    | RS256 | RS384 | RS512
    | ES256 | ES384 | ES512

  /** The table, in source order. nginx stops scanning at the entry with an
      empty name, so that end marker is not a row here. */
  const Table: seq<(seq<byte>, Alg)> := [
    (Ascii("none"), NoneAlg),
    (Ascii("HS256"), HS256),
    (Ascii("HS384"), HS384),
    (Ascii("HS512"), HS512),
    (Ascii("RS256"), RS256),
    (Ascii("RS384"), RS384),
    (Ascii("RS512"), RS512),
    (Ascii("ES256"), ES256),
    (Ascii("ES384"), ES384),
    (Ascii("ES512"), ES512)
  ]

  /** The first entry of `rows` from `from` on whose name equals `name` up to
      ASCII case, as nginx's enum directive handler scans its table. */
  function Find(rows: seq<(seq<byte>, Alg)>, name: seq<byte>, from: nat): (r: Option<Alg>)
    requires from <= |rows|
    ensures r.Some? <==> exists i :: from <= i < |rows| && EqualsIgnoreCase(rows[i].0, name)
    ensures r.Some? ==> exists i :: from <= i < |rows| && rows[i].1 == r.value
                                    && EqualsIgnoreCase(rows[i].0, name)
    decreases |rows| - from
  {
    if from == |rows| then None
    else if EqualsIgnoreCase(rows[from].0, name) then Some(rows[from].1)
    else Find(rows, name, from + 1)
  }

  /** The algorithm a `jwt_issue_algorithm` value selects; None is nginx's
      "invalid value" configuration error. */
  function Lookup(name: seq<byte>): (r: Option<Alg>)
    ensures r.Some? <==> exists i :: 0 <= i < |Table| && EqualsIgnoreCase(Table[i].0, name)
  {
    Find(Table, name, 0)
  }

  /** The directive value that names `a`. */
  function Name(a: Alg): (n: seq<byte>)
    ensures (n, a) in Table
  {
    match a
    case NoneAlg => Table[0].0
    case HS256 => Table[1].0
    case HS384 => Table[2].0
    case HS512 => Table[3].0
    case RS256 => Table[4].0
    case RS384 => Table[5].0
    case RS512 => Table[6].0
    case ES256 => Table[7].0
    case ES384 => Table[8].0
    case ES512 => Table[9].0
  }

  /** Every algorithm is selected by its own name, whatever its case. */
  lemma LookupName(a: Alg, n: seq<byte>)
    requires EqualsIgnoreCase(n, Name(a))
    ensures Lookup(n) == Some(a)
  {
    var k :| 0 <= k < |Table| && Table[k] == (Name(a), a);
    forall j | 0 <= j < k
      ensures !EqualsIgnoreCase(Table[j].0, n)
    {
      NamesApart(j, k, n);
    }
    FindFirst(Table, n, 0, k);
  }

  /** The scan stops at the first matching row. */
  lemma {:induction false} FindFirst(rows: seq<(seq<byte>, Alg)>, n: seq<byte>, from: nat, k: nat)
    requires from <= k < |rows| && EqualsIgnoreCase(rows[k].0, n)
    requires forall j :: from <= j < k ==> !EqualsIgnoreCase(rows[j].0, n)
    ensures Find(rows, n, from) == Some(rows[k].1)
    decreases k - from
  {
    if from < k {
      FindFirst(rows, n, from + 1, k);
    }
  }

  /** No value matches two rows: the names differ in length, in their first
      letter or in their first digit, whatever the case. */
  lemma NamesApart(j: nat, k: nat, n: seq<byte>)
    requires j < |Table| && k < |Table| && j != k && EqualsIgnoreCase(Table[k].0, n)
    ensures !EqualsIgnoreCase(Table[j].0, n)
  {
    if |Table[j].0| == |Table[k].0| {
      var d := if Lower(Table[j].0[0]) != Lower(Table[k].0[0]) then 0 else 2;
      assert Lower(Table[j].0[d]) != Lower(n[d]);
    }
  }

  /** A value selects an algorithm only if it is that algorithm's name, up to case. */
  lemma LookupSound(n: seq<byte>, a: Alg)
    requires Lookup(n) == Some(a)
    ensures EqualsIgnoreCase(n, Name(a))
  {
    var i :| 0 <= i < |Table| && Table[i].1 == a && EqualsIgnoreCase(Table[i].0, n);
    NameOfRow(i);
  }

  /** Each algorithm has one row, so a row's name is its algorithm's name. */
  lemma NameOfRow(i: nat)
    requires i < |Table|
    ensures Name(Table[i].1) == Table[i].0
  {
    if i == 0 {} else if i == 1 {} else if i == 2 {} else if i == 3 {} else if i == 4 {}
    else if i == 5 {} else if i == 6 {} else if i == 7 {} else if i == 8 {} else {}
  }

  /** The empty value selects nothing: the table's end marker is never matched. */
  lemma LookupEmpty()
    ensures Lookup([]) == None
  {
  }
}
