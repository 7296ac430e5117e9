/** Vocabulary shared by every module: identifiers, optional values, the HTTP
    status codes a request can fail with, and the result of a request. */
module Common {

  /** A UUID primary key. Ordering `str(uuid)` of fixed-width lower-case hex
      agrees with the numeric order of the 128-bit value, so ids are naturals. */
  type Id = nat

  /** A timestamp, supplied by the caller (the database clock is a parameter). */
  type Timestamp = nat

  datatype Option<+T> = None | Some(value: T)

  /** A key of a partial-update payload: absent (`exclude_unset`) or present. */
  datatype Field<+T> = Unset | Set(value: T)

  /** The failures a request ends in. `InternalError` is an unhandled database
      exception (a trigger that raises), which the web framework turns into 500. */
  datatype Status =
    | BadRequest
    | Unauthorized
    | Forbidden
    | NotFound
    | Conflict
    | Unprocessable
    | InternalError
  {
    function Code(): (c: nat)
      ensures 400 <= c < 600
    {
      match this
      case BadRequest => 400
      case Unauthorized => 401
      case Forbidden => 403
      case NotFound => 404
      case Conflict => 409
      case Unprocessable => 422
      case InternalError => 500
    }
  }

  datatype Result<+T> = Ok(value: T) | Err(status: Status)

  /** A primary-key lookup that answers 404 for a missing row:
      `get_page_by_id` and `_require_target_user`. */
  function Fetch<K, V>(table: map<K, V>, key: K): (r: Result<V>)
    ensures r.Ok? <==> key in table
    ensures r.Ok? ==> r.value == table[key]
    ensures r.Err? ==> r.status == NotFound
  {
    if key in table then Ok(table[key]) else Err(NotFound)
  }

  /** The rows of `keys`, in that order. */
  function RowsAt<K, V>(table: map<K, V>, keys: seq<K>): (rows: seq<V>)
    requires forall k :: k in keys ==> k in table
    ensures |rows| == |keys|
    ensures forall j :: 0 <= j < |rows| ==> rows[j] == table[keys[j]]
  {
    if keys == [] then []
    else [table[keys[0]]] + RowsAt(table, keys[1..])
  }

  /** Writing back the value a key already has leaves the map as it was. */
  lemma RewriteSame<K, V>(m: map<K, V>, k: K)
    requires k in m
    ensures m[k := m[k]] == m
  {
  }

  /** A second write to a key hides the first. */
  lemma RewriteTwice<K, V>(m: map<K, V>, k: K, a: V, b: V)
    ensures m[k := a][k := b] == m[k := b]
  {
  }
}
