/** The read-only movie table, seen as one sequence of rows: `count()` is
    its length, `offset(o).limit(l)` a slice of it, and a primary-key `get` a
    search by the `id` field. The queries carry no ORDER BY; taking one
    sequence for the count and for every page fixes a single row order that
    all requests share. */
module MovieStore {

  import opened Responses
  import opened MovieSchemas

  type Store = seq<MovieModel>

  function Min(a: int, b: int): (m: int)
    ensures m <= a && m <= b && (m == a || m == b)
  {
    if a <= b then a else b
  }

  /** `id` is the primary key: no two rows share one. */
  predicate UniqueIds(s: Store) {
    forall i, j :: 0 <= i < j < |s| ==> s[i].id != s[j].id
  }

  /** `SELECT ... OFFSET offset LIMIT limit`: the rows from position `offset`
      on, at most `limit` of them, in the order of the sequence; none past
      the end. */
  function FetchPage(s: Store, offset: nat, limit: nat): (r: Store)
    ensures |r| == if offset >= |s| then 0 else Min(limit, |s| - offset)
    ensures forall i :: 0 <= i < |r| ==> r[i] == s[offset + i]
  {
    if offset >= |s| then [] else s[offset .. Min(offset + limit, |s|)]
  }

  /** Lookup by primary key: a row with that id, or nothing when no row has it. */
  function Get(s: Store, id: int): (r: Option<MovieModel>)
    ensures r.None? <==> forall i :: 0 <= i < |s| ==> s[i].id != id
    ensures r.Some? ==> r.value.id == id && r.value in s
    decreases |s|
  {
    if s == [] then None
    else if s[0].id == id then Some(s[0])
    else Get(s[1..], id)
  }

  /** With unique ids, the row found for an id is exactly the row holding it. */
  lemma GetFindsRow(s: Store, i: nat)
    requires UniqueIds(s)
    requires i < |s|
    ensures Get(s, s[i].id) == Some(s[i])
  {
    // Get finds some row with this id, and unique ids leave only row i.
  }

  /** A row added under an id no other row has is what a lookup of that id finds. */
  lemma {:induction false} GetAfterAppend(s: Store, m: MovieModel)
    requires forall i :: 0 <= i < |s| ==> s[i].id != m.id
    ensures Get(s + [m], m.id) == Some(m)
    decreases |s|
  {
    if s != [] {
      assert (s + [m])[1..] == s[1..] + [m];
      GetAfterAppend(s[1..], m);
    }
  }

}
