/** The query and parameter assembly of `AirbnbListingDB` in
    app/models/airbnb_listing_db.py: `from_db_dict`, the `IN (...)` list of
    `get_by_ids`, the `INSERT OR REPLACE` of `save`, and `__str__`.

    A Python dict is an insertion-ordered list of (key, value) pairs. Values are
    of an arbitrary type V; `str(v)` (the f-string rendering) is a parameter.
    The database calls themselves are not modelled: each builder returns the SQL
    text and the parameter dict it would hand to the database.
 */
module ListingDb {
  import opened Wrappers
  import opened Text

  // ---------------------------------------------------------------------------
  // Insertion-ordered dicts
  // ---------------------------------------------------------------------------

  type Dict<V> = seq<(string, V)>

  function Keys<V>(d: Dict<V>): (ks: seq<string>)
    ensures |ks| == |d|
    ensures forall i :: 0 <= i < |d| ==> ks[i] == d[i].0
  {
    seq(|d|, i requires 0 <= i < |d| => d[i].0)
  }

  lemma KeysCons<V>(p: (string, V), d: Dict<V>)
    ensures Keys([p] + d) == [p.0] + Keys(d)
  {
  }

  lemma GetCons<V>(p: (string, V), d: Dict<V>, x: string)
    ensures Get([p] + d, x) == if p.0 == x then Some(p.1) else Get(d, x)
  {
    assert ([p] + d)[1..] == d;
  }

  /** Every key occurs once, as in any Python dict. */
  predicate DistinctKeys<V>(d: Dict<V>) {
    forall i, j :: 0 <= i < j < |d| ==> d[i].0 != d[j].0
  }

  /** `d.get(k)`. */
  function Get<V>(d: Dict<V>, k: string): (r: Option<V>)
    ensures r.Some? <==> k in Keys(d)
    ensures r.Some? ==> (k, r.value) in d
  {
    if d == [] then None
    else if d[0].0 == k then Some(d[0].1)
    else
      assert Keys(d) == [d[0].0] + Keys(d[1..]);
      Get(d[1..], k)
  }

  /** In a dict with distinct keys, the value stored at position i is the one
      `Get` finds. */
  lemma {:induction false} GetAt<V>(d: Dict<V>, i: nat)
    requires DistinctKeys(d) && i < |d|
    ensures Get(d, d[i].0) == Some(d[i].1)
  {
    if i > 0 {
      assert d[0].0 != d[i].0;
      assert DistinctKeys(d[1..]) by {
        assert forall j :: 0 <= j < |d| - 1 ==> d[1..][j] == d[j + 1];
      }
      assert d[1..][i - 1] == d[i];
      GetAt(d[1..], i - 1);
    }
  }

  /** `d.pop(k)` seen from the dict: the pairs without key k, in order. */
  function Remove<V>(d: Dict<V>, k: string): (r: Dict<V>)
    ensures k !in Keys(r)
    ensures forall x :: x != k ==> Get(r, x) == Get(d, x)
    ensures forall p :: p in r ==> p in d
    ensures DistinctKeys(d) ==> DistinctKeys(r)
  {
    if d == [] then []
    else
      var rest := Remove(d[1..], k);
      assert forall p :: p in d[1..] ==> p in d;
      if d[0].0 == k then rest
      else
        var r := [d[0]] + rest;
        assert Keys(r) == [d[0].0] + Keys(rest);
        ConsDistinct(d, rest);
        r
  }

  /** Putting the head of a distinct-keyed dict in front of distinct pairs
      drawn from its tail keeps the keys distinct. */
  lemma ConsDistinct<V>(d: Dict<V>, rest: Dict<V>)
    requires |d| >= 1
    requires forall p :: p in rest ==> p in d[1..]
    requires DistinctKeys(d[1..]) ==> DistinctKeys(rest)
    ensures DistinctKeys(d) ==> DistinctKeys([d[0]] + rest)
  {
    if DistinctKeys(d) {
      assert DistinctKeys(d[1..]) by {
        assert forall j :: 0 <= j < |d| - 1 ==> d[1..][j] == d[j + 1];
      }
      forall j | 0 <= j < |rest|
        ensures rest[j].0 != d[0].0
      {
        assert rest[j] in d[1..];
        var m :| 0 <= m < |d[1..]| && d[1..][m] == rest[j];
        assert d[1..][m] == d[m + 1];
      }
      assert forall j :: 0 < j < |rest| + 1 ==> ([d[0]] + rest)[j] == rest[j - 1];
    }
  }

  /** Popping a key the dict does not hold changes nothing. */
  lemma {:induction false} RemoveAbsent<V>(d: Dict<V>, k: string)
    requires k !in Keys(d)
    ensures Remove(d, k) == d
  {
    if d != [] {
      assert d == [d[0]] + d[1..];
      KeysCons(d[0], d[1..]);
      RemoveAbsent(d[1..], k);
    }
  }

  /** With distinct keys, popping the key at position i cuts out exactly that
      pair and keeps the others in order. */
  lemma {:induction false} RemoveAt<V>(d: Dict<V>, i: nat)
    requires DistinctKeys(d) && i < |d|
    ensures Remove(d, d[i].0) == d[..i] + d[i + 1..]
  {
    if i == 0 {
      RemoveAtHead(d);
    } else {
      var k := d[i].0;
      assert d[0].0 != k;
      TailDistinct(d);
      assert d[1..][i - 1] == d[i];
      RemoveAt(d[1..], i - 1);
      assert Remove(d, k) == [d[0]] + Remove(d[1..], k);
      assert d[..i] + d[i + 1..] == [d[0]] + (d[1..][..i - 1] + d[1..][i..]);
    }
  }

  /** Popping the first key of a distinct-keyed dict leaves its tail. */
  lemma RemoveAtHead<V>(d: Dict<V>)
    requires DistinctKeys(d) && |d| >= 1
    ensures Remove(d, d[0].0) == d[1..]
  {
    assert forall j :: 0 <= j < |d| - 1 ==> Keys(d[1..])[j] == d[j + 1].0 && d[j + 1].0 != d[0].0;
    RemoveAbsent(d[1..], d[0].0);
  }

  /** The tail of a distinct-keyed dict has distinct keys. */
  lemma TailDistinct<V>(d: Dict<V>)
    requires DistinctKeys(d) && |d| >= 1
    ensures DistinctKeys(d[1..])
  {
    assert forall j :: 0 <= j < |d| - 1 ==> d[1..][j] == d[j + 1];
  }

  /** `d.pop(k)` on a dict holding k leaves the other pairs in their order. */
  lemma RemoveOrder<V>(d: Dict<V>, k: string)
    ensures DistinctKeys(d) && k in Keys(d) ==>
              exists i :: 0 <= i < |d| && d[i].0 == k && Remove(d, k) == d[..i] + d[i + 1..]
  {
    if DistinctKeys(d) && k in Keys(d) {
      var i :| 0 <= i < |d| && Keys(d)[i] == k;
      RemoveAt(d, i);
    }
  }

  /** `d[k] = v`: an existing key keeps its place, a new key goes last. */
  function Put<V>(d: Dict<V>, k: string, v: V): (r: Dict<V>)
    ensures Get(r, k) == Some(v)
    ensures forall x :: x != k ==> Get(r, x) == Get(d, x)
    ensures k in Keys(d) ==> Keys(r) == Keys(d)
    ensures k !in Keys(d) ==> r == d + [(k, v)]
  {
    if d == [] then [(k, v)]
    else if d[0].0 == k then
      PutFront(d, k, v);
      [(k, v)] + d[1..]
    else
      var rest := Put(d[1..], k, v);
      PutBehind(d, k, v, rest);
      [d[0]] + rest
  }

  /** Put's contract when the first pair holds the key: only its value changes. */
  lemma PutFront<V>(d: Dict<V>, k: string, v: V)
    requires d != [] && d[0].0 == k
    ensures var r := [(k, v)] + d[1..];
            && Get(r, k) == Some(v)
            && (forall x :: x != k ==> Get(r, x) == Get(d, x))
            && k in Keys(d) && Keys(r) == Keys(d)
  {
    var r := [(k, v)] + d[1..];
    assert d == [d[0]] + d[1..];
    forall x | x != k
      ensures Get(r, x) == Get(d, x)
    {
      GetCons((k, v), d[1..], x);
      GetCons(d[0], d[1..], x);
    }
    assert Keys(d)[0] == k;
  }

  /** Put's contract when the first pair holds another key, given the contract
      for the rest of the dict. */
  lemma PutBehind<V>(d: Dict<V>, k: string, v: V, rest: Dict<V>)
    requires d != [] && d[0].0 != k
    requires Get(rest, k) == Some(v)
    requires forall x :: x != k ==> Get(rest, x) == Get(d[1..], x)
    requires k in Keys(d[1..]) ==> Keys(rest) == Keys(d[1..])
    requires k !in Keys(d[1..]) ==> rest == d[1..] + [(k, v)]
    ensures var r := [d[0]] + rest;
            && Get(r, k) == Some(v)
            && (forall x :: x != k ==> Get(r, x) == Get(d, x))
            && (k in Keys(d) ==> Keys(r) == Keys(d))
            && (k !in Keys(d) ==> r == d + [(k, v)])
  {
    PutBehindGet(d, k, v, rest);
    PutBehindKeys(d, k, v, rest);
  }

  lemma PutBehindGet<V>(d: Dict<V>, k: string, v: V, rest: Dict<V>)
    requires d != [] && d[0].0 != k
    requires Get(rest, k) == Some(v)
    requires forall x :: x != k ==> Get(rest, x) == Get(d[1..], x)
    ensures var r := [d[0]] + rest;
            Get(r, k) == Some(v) && forall x :: x != k ==> Get(r, x) == Get(d, x)
  {
    var r := [d[0]] + rest;
    assert d == [d[0]] + d[1..];
    GetCons(d[0], rest, k);
    forall x | x != k
      ensures Get(r, x) == Get(d, x)
    {
      GetCons(d[0], rest, x);
      GetCons(d[0], d[1..], x);
    }
  }

  lemma PutBehindKeys<V>(d: Dict<V>, k: string, v: V, rest: Dict<V>)
    requires d != [] && d[0].0 != k
    requires k in Keys(d[1..]) ==> Keys(rest) == Keys(d[1..])
    requires k !in Keys(d[1..]) ==> rest == d[1..] + [(k, v)]
    ensures var r := [d[0]] + rest;
            && (k in Keys(d) ==> Keys(r) == Keys(d))
            && (k !in Keys(d) ==> r == d + [(k, v)])
  {
    KeysCons(d[0], d[1..]);
    KeysCons(d[0], rest);
    assert d == [d[0]] + d[1..];
    if k !in Keys(d) {
      assert rest == d[1..] + [(k, v)];
      assert [d[0]] + (d[1..] + [(k, v)]) == ([d[0]] + d[1..]) + [(k, v)];
    }
  }

  /** Unpacking `e` into a dict that starts as d (`{**d, **e}`): the pairs of e
      are stored in order, a later one overwriting an earlier one. */
  function PutAll<V>(d: Dict<V>, e: Dict<V>): (r: Dict<V>)
    ensures forall x :: x !in Keys(e) ==> Get(r, x) == Get(d, x)
    ensures forall x :: x in Keys(e) ==> Get(r, x).Some?
  {
    if e == [] then d
    else
      var n := |e| - 1;
      var prev := PutAll(d, e[..n]);
      PutAllLast(prev, e);
      Put(prev, e[n].0, e[n].1)
  }

  /** Putting the last pair of e keeps every key of e present. */
  lemma PutAllLast<V>(prev: Dict<V>, e: Dict<V>)
    requires |e| >= 1
    requires forall x :: x in Keys(e[..|e| - 1]) ==> Get(prev, x).Some?
    ensures forall x :: x in Keys(e) ==> Get(Put(prev, e[|e| - 1].0, e[|e| - 1].1), x).Some?
  {
    var n := |e| - 1;
    var r := Put(prev, e[n].0, e[n].1);
    forall x | x in Keys(e)
      ensures Get(r, x).Some?
    {
      if x != e[n].0 {
        var i :| 0 <= i < |e| && Keys(e)[i] == x;
        assert i < n;
        assert Keys(e[..n])[i] == x;
      }
    }
  }

  /** When no key repeats across d and e, unpacking e appends it. */
  lemma {:induction false} PutAllDisjoint<V>(d: Dict<V>, e: Dict<V>)
    requires DistinctKeys(d + e)
    ensures PutAll(d, e) == d + e
  {
    if e != [] {
      var n := |e| - 1;
      var front := e[..n];
      assert d + e == (d + front) + [e[n]];
      assert DistinctKeys(d + front) by {
        assert forall i :: 0 <= i < |d + front| ==> (d + front)[i] == (d + e)[i];
      }
      PutAllDisjoint(d, front);
      forall i | 0 <= i < |d + front|
        ensures Keys(d + front)[i] != e[n].0
      {
        assert (d + front)[i] == (d + e)[i];
        assert e[n] == (d + e)[|d + e| - 1];
      }
    }
  }

  /** A dict with distinct keys, unpacked into an empty dict, is itself. */
  lemma PutAllOwn<V>(e: Dict<V>)
    requires DistinctKeys(e)
    ensures PutAll([], e) == e
  {
    assert [] + e == e;
    PutAllDisjoint([], e);
  }

  // ---------------------------------------------------------------------------
  // The listing
  // ---------------------------------------------------------------------------

  /** `AirbnbListingDB(id, **properties)`. */
  datatype Listing<V> = Listing(id: V, properties: Dict<V>)

  /** What the constructor guarantees: the keyword arguments form a dict, and
      none of them is called `id` (that would bind the `id` parameter twice). */
  predicate WellFormed<V>(l: Listing<V>) {
    DistinctKeys(l.properties) && "id" !in Keys(l.properties)
  }

  datatype DbError = KeyError(key: string)

  /** from_db_dict: pop 'id' (raising KeyError when absent) and pass the rest
      as keyword arguments. */
  function FromDbDict<V>(d: Dict<V>): (r: Result<Listing<V>, DbError>)
    ensures r.Err? <==> "id" !in Keys(d)
    ensures r.Err? ==> r.error == KeyError("id")
    ensures r.Ok? ==> Some(r.value.id) == Get(d, "id")
    ensures r.Ok? ==> "id" !in Keys(r.value.properties)
    ensures r.Ok? ==> forall x :: x != "id" ==> Get(r.value.properties, x) == Get(d, x)
    ensures r.Ok? && DistinctKeys(d) ==> WellFormed(r.value)
    ensures r.Ok? && DistinctKeys(d) ==>
              exists i :: 0 <= i < |d| && d[i].0 == "id" && r.value.properties == d[..i] + d[i + 1..]
  {
    RemoveOrder(d, "id");
    match Get(d, "id")
    case None => Err(KeyError("id"))
    case Some(id) => Ok(Listing(id, Remove(d, "id")))
  }

  // ---------------------------------------------------------------------------
  // get_by_ids
  // ---------------------------------------------------------------------------

  /** A parameterised SQL statement. */
  datatype Query<V> = Query(sql: string, params: Dict<V>)

  /** The i-th parameter name, `f'id{i}'`. */
  function IdKey(i: nat): string {
    "id" + NatToString(i)
  }

  /** The placeholders `:id0`, ..., `:id{n-1}`. */
  function IdPlaceholders(n: nat): (ps: seq<string>)
    ensures |ps| == n
    ensures forall i :: 0 <= i < n ==> ps[i] == ":" + IdKey(i)
    ensures forall i :: 0 <= i < n ==> ',' !in ps[i] && NoOuterSpace(ps[i])
    ensures forall i, j :: 0 <= i < j < n ==> ps[i] != ps[j]
  {
    var ps := seq(n, i requires 0 <= i < n => ":" + IdKey(i));
    forall i | 0 <= i < n
      ensures ',' !in ps[i] && NoOuterSpace(ps[i])
    {
      PlaceholderPlain(i);
    }
    forall i, j | 0 <= i < j < n
      ensures ps[i] != ps[j]
    {
      IdKeysDistinct(i, j);
      assert ps[i][1..] == IdKey(i) && ps[j][1..] == IdKey(j);
    }
    ps
  }

  /** Distinct indices give distinct parameter names. */
  lemma IdKeysDistinct(i: nat, j: nat)
    requires i != j
    ensures IdKey(i) != IdKey(j)
  {
    NatToStringInjective(i, j);
    assert IdKey(i)[2..] == NatToString(i);
    assert IdKey(j)[2..] == NatToString(j);
  }

  /** The pairs the dict comprehension `{f'id{i}': id for i, id in enumerate(ids)}`
      stores, in order. */
  function IdPairs<V>(ids: seq<V>): (ps: Dict<V>)
    ensures |ps| == |ids|
    ensures forall i :: 0 <= i < |ids| ==> ps[i] == (IdKey(i), ids[i])
  {
    seq(|ids|, i requires 0 <= i < |ids| => (IdKey(i), ids[i]))
  }

  const SelectByIdsLead := "SELECT * FROM listing WHERE id IN ("

  /** get_by_ids, up to the database call. */
  function GetByIds<V>(ids: seq<V>): (q: Query<V>)
    ensures |q.params| == |ids|
    ensures DistinctKeys(q.params)
    ensures forall i :: 0 <= i < |ids| ==> q.params[i] == (IdKey(i), ids[i])
  {
    IdPairsDistinct(ids);
    PutAllOwn(IdPairs(ids));
    Query(SelectByIdsLead + Join(IdPlaceholders(|ids|), ", ") + ")", PutAll([], IdPairs(ids)))
  }

  /** The generated parameter names never collide. */
  lemma IdPairsDistinct<V>(ids: seq<V>)
    ensures DistinctKeys(IdPairs(ids))
  {
    forall i, j | 0 <= i < j < |ids|
      ensures IdKey(i) != IdKey(j)
    {
      IdKeysDistinct(i, j);
    }
  }

  /** A name made of digits and "id"/':' has no comma and no outer space. */
  lemma PlaceholderPlain(i: nat)
    ensures ',' !in ":" + IdKey(i) && NoOuterSpace(":" + IdKey(i))
  {
    var p := ":" + IdKey(i);
    var s := NatToString(i);
    assert p == ":id" + s;
    assert forall k :: 3 <= k < |p| ==> p[k] == s[k - 3];
    assert IsDigit(p[|p| - 1]);
  }

  /** Every placeholder of the IN list binds a parameter, and vice versa: the
      k-th comma-separated entry, stripped, is ':' followed by the k-th key. */
  lemma GetByIdsBinds<V>(ids: seq<V>)
    requires |ids| >= 1
    ensures var q := GetByIds(ids);
            var inner := q.sql[|SelectByIdsLead|..|q.sql| - 1];
            var parts := Split(inner, ',');
            && q.sql[..|SelectByIdsLead|] == SelectByIdsLead
            && |parts| == |q.params|
            && forall k :: 0 <= k < |parts| ==> Strip(parts[k]) == ":" + q.params[k].0
  {
    var inner := Join(IdPlaceholders(|ids|), ", ");
    PlaceholdersSplit(|ids|);
    var q := GetByIds(ids);
    assert q.sql == SelectByIdsLead + inner + ")";
    Between(SelectByIdsLead, inner, ")");
    var parts := Split(inner, ',');
    forall k | 0 <= k < |parts|
      ensures Strip(parts[k]) == ":" + q.params[k].0
    {
      assert q.params[k].0 == IdKey(k);
    }
  }

  /** The parts of a three-piece concatenation can be cut back out. */
  lemma Between(a: string, m: string, b: string)
    ensures var s := a + m + b;
            s[..|a|] == a && s[|a|..|s| - |b|] == m
  {
  }

  /** The IN list splits back into its placeholders. */
  lemma PlaceholdersSplit(n: nat)
    requires n >= 1
    ensures var parts := Split(Join(IdPlaceholders(n), ", "), ',');
            |parts| == n && forall k :: 0 <= k < n ==> Strip(parts[k]) == ":" + IdKey(k)
  {
    SplitCommaSpace(IdPlaceholders(n));
  }

  // ---------------------------------------------------------------------------
  // save
  // ---------------------------------------------------------------------------

  /** `', '.join(self.properties.keys())`. */
  function Columns<V>(l: Listing<V>): string {
    Join(Keys(l.properties), ", ")
  }

  /** The named placeholders, one per property key, in key order. */
  function KeyPlaceholders<V>(l: Listing<V>): (ps: seq<string>)
    ensures |ps| == |l.properties|
    ensures forall k :: 0 <= k < |ps| ==> ps[k] == ":" + l.properties[k].0
  {
    seq(|l.properties|, k requires 0 <= k < |l.properties| => ":" + l.properties[k].0)
  }

  const InsertHead := "\n        INSERT OR REPLACE INTO listing ("
  const ValuesHead := ")\n        VALUES ("
  const InsertTail := ")\n        "

  /** The column list of the statement: `id`, then the property keys. */
  function ColumnList<V>(l: Listing<V>): string {
    "id, " + Columns(l)
  }

  /** The VALUES list of the statement: `:id`, then one placeholder per key. */
  function ValueList<V>(l: Listing<V>): string {
    ":id, " + Join(KeyPlaceholders(l), ", ")
  }

  /** save, up to the database call: the statement and `{'id': self.id, **self.properties}`. */
  function Save<V>(l: Listing<V>): (q: Query<V>)
    ensures DistinctKeys(l.properties) ==>
              Get(q.params, "id") == (if "id" in Keys(l.properties) then Get(l.properties, "id") else Some(l.id))
    ensures DistinctKeys(l.properties) ==>
              forall x :: x != "id" ==> Get(q.params, x) == Get(l.properties, x)
  {
    var params := PutAll([("id", l.id)], l.properties);
    assert DistinctKeys(l.properties) ==> Get(params, "id") == (if "id" in Keys(l.properties) then Get(l.properties, "id") else Some(l.id))
                                          && forall x :: x != "id" ==> Get(params, x) == Get(l.properties, x) by {
      if DistinctKeys(l.properties) {
        SaveParamsGet(l);
      }
    }
    Query(SaveSql(l), params)
  }

  /** The statement save issues: `INSERT OR REPLACE INTO listing (id, {columns})
      VALUES (:id, {placeholders})`, framed by the newlines and indentation of
      the source's triple-quoted string. */
  function SaveSql<V>(l: Listing<V>): (s: string)
    ensures |s| == |InsertHead| + |ColumnList(l)| + |ValuesHead| + |ValueList(l)| + |InsertTail|
  {
    InsertHead + ColumnList(l) + ValuesHead + ValueList(l) + InsertTail
  }

  /** Looking a key up in the merged parameters. */
  lemma {:induction false} PutAllGet<V>(d: Dict<V>, e: Dict<V>, x: string)
    requires DistinctKeys(e)
    ensures Get(PutAll(d, e), x) == if x in Keys(e) then Get(e, x) else Get(d, x)
  {
    if e != [] {
      var n := |e| - 1;
      var front := e[..n];
      assert Keys(e) == Keys(front) + [e[n].0];
      assert DistinctKeys(front);
      PutAllGet(d, front, x);
      if x == e[n].0 {
        GetAt(e, n);
      } else if x in Keys(front) {
        var i :| 0 <= i < |front| && Keys(front)[i] == x;
        GetAt(front, i);
        GetAt(e, i);
      }
    }
  }

  /** `{'id': id, **properties}`: a property never shadows `id` unless it is
      itself called `id`. */
  lemma SaveParamsGet<V>(l: Listing<V>)
    requires DistinctKeys(l.properties)
    ensures var params := PutAll([("id", l.id)], l.properties);
            && Get(params, "id") == (if "id" in Keys(l.properties) then Get(l.properties, "id") else Some(l.id))
            && forall x :: x != "id" ==> Get(params, x) == Get(l.properties, x)
  {
    var params := PutAll([("id", l.id)], l.properties);
    PutAllGet([("id", l.id)], l.properties, "id");
    forall x | x != "id"
      ensures Get(params, x) == Get(l.properties, x)
    {
      PutAllGet([("id", l.id)], l.properties, x);
    }
  }

  /** For a constructed listing the parameters are `id` followed by the
      properties, in order. */
  lemma SaveParamsShape<V>(l: Listing<V>)
    requires WellFormed(l)
    ensures Save(l).params == [("id", l.id)] + l.properties
  {
    var d := [("id", l.id)] + l.properties;
    forall i, j | 0 <= i < j < |d|
      ensures d[i].0 != d[j].0
    {
      if i == 0 {
        assert d[j] == l.properties[j - 1];
        assert Keys(l.properties)[j - 1] == d[j].0;
      } else {
        assert d[i] == l.properties[i - 1] && d[j] == l.properties[j - 1];
      }
    }
    PutAllDisjoint([("id", l.id)], l.properties);
  }

  /** A named placeholder inherits the plainness of its key. */
  lemma ColonPlain(key: string)
    requires ',' !in key && |key| >= 1 && NoOuterSpace(key)
    ensures ',' !in ":" + key && NoOuterSpace(":" + key)
  {
    var p := ":" + key;
    assert p[|p| - 1] == key[|key| - 1];
    assert forall i :: 1 <= i < |p| ==> p[i] == key[i - 1];
  }

  /** The five pieces of a concatenation can be cut back out. */
  lemma Cut5(a: string, b: string, c: string, d: string, e: string)
    ensures var s := a + b + c + d + e;
            var i, j := |a|, |a| + |b|;
            var h := j + |c|;
            && |s| == h + |d| + |e|
            && s[..i] == a && s[i..j] == b && s[j..h] == c
            && s[h..|s| - |e|] == d && s[|s| - |e|..] == e
  {
  }

  /** Keys holding no comma and no outer space. */
  predicate PlainKeys<V>(l: Listing<V>) {
    forall k :: 0 <= k < |l.properties| ==>
      ',' !in l.properties[k].0 && |l.properties[k].0| >= 1 && NoOuterSpace(l.properties[k].0)
  }

  /** Split on ',' and stripped, the column list is `id` followed by the keys. */
  lemma ColumnListSplit<V>(l: Listing<V>)
    requires |l.properties| >= 1 && PlainKeys(l)
    ensures var cols := Split(ColumnList(l), ',');
            && |cols| == |l.properties| + 1
            && forall k :: 0 <= k < |cols| ==> Strip(cols[k]) == (["id"] + Keys(l.properties))[k]
  {
    var ks := ["id"] + Keys(l.properties);
    assert ks[1..] == Keys(l.properties);
    assert Join(ks, ", ") == ColumnList(l);
    assert NoOuterSpace("id") && ',' !in "id";
    assert forall k :: 1 <= k < |ks| ==> ks[k] == l.properties[k - 1].0;
    SplitCommaSpace(ks);
  }

  /** Split on ',' and stripped, the VALUES list is `:id` followed by ':' plus
      each key. */
  lemma ValueListSplit<V>(l: Listing<V>)
    requires |l.properties| >= 1 && PlainKeys(l)
    ensures var vals := Split(ValueList(l), ',');
            && |vals| == |l.properties| + 1
            && forall k :: 0 <= k < |vals| ==> Strip(vals[k]) == ":" + (["id"] + Keys(l.properties))[k]
  {
    var ks := ["id"] + Keys(l.properties);
    var ps := [":id"] + KeyPlaceholders(l);
    assert ps[1..] == KeyPlaceholders(l);
    assert Join(ps, ", ") == ValueList(l);
    PlaceholdersPlain(l);
    assert forall k :: 0 <= k < |ps| ==> ',' !in ps[k] && NoOuterSpace(ps[k]);
    SplitCommaSpace(ps);
    assert forall k :: 0 <= k < |ps| ==> ps[k] == ":" + ks[k];
  }

  /** Every VALUES entry of a listing with plain keys is itself plain. */
  lemma PlaceholdersPlain<V>(l: Listing<V>)
    requires PlainKeys(l)
    ensures forall k :: 0 <= k < |l.properties| ==>
              ',' !in KeyPlaceholders(l)[k] && NoOuterSpace(KeyPlaceholders(l)[k])
    ensures ',' !in ":id" && NoOuterSpace(":id")
  {
    forall k | 0 <= k < |l.properties|
      ensures ',' !in KeyPlaceholders(l)[k] && NoOuterSpace(KeyPlaceholders(l)[k])
    {
      ColonPlain(l.properties[k].0);
    }
  }

  /** Where the lists sit in the statement text. */
  lemma SaveSqlParts<V>(l: Listing<V>)
    ensures var s := Save(l).sql;
            var i := |InsertHead|;
            var j := i + |ColumnList(l)|;
            var h := j + |ValuesHead|;
            && |s| == h + |ValueList(l)| + |InsertTail|
            && s[..i] == InsertHead && s[i..j] == ColumnList(l) && s[j..h] == ValuesHead
            && s[h..|s| - |InsertTail|] == ValueList(l) && s[|s| - |InsertTail|..] == InsertTail
  {
    assert Save(l).sql == SaveSql(l);
    Cut5(InsertHead, ColumnList(l), ValuesHead, ValueList(l), InsertTail);
  }

  /** Column entries that strip to `id` and then the keys, and VALUES entries
      that strip to ':' plus the column at the same place. */
  predicate ListsBind(cols: seq<string>, vals: seq<string>, keys: seq<string>) {
    && |cols| == |vals| == |keys| + 1
    && Strip(cols[0]) == "id"
    && (forall k :: 0 <= k < |keys| ==> Strip(cols[k + 1]) == keys[k])
    && (forall k :: 0 <= k < |cols| ==> Strip(vals[k]) == ":" + Strip(cols[k]))
  }

  /** Entries that strip to a name and to ':' plus that name pair up. */
  lemma PairUp(cols: seq<string>, vals: seq<string>, ks: seq<string>)
    requires |cols| == |vals| == |ks|
    requires forall k :: 0 <= k < |ks| ==> Strip(cols[k]) == ks[k] && Strip(vals[k]) == ":" + ks[k]
    ensures forall k :: 0 <= k < |cols| ==> Strip(vals[k]) == ":" + Strip(cols[k])
  {
  }

  /** The statement's column list and VALUES list pair up: cut out of the SQL
      text and split on ',', the column list is `id` followed by the property
      keys in order, and the k-th VALUES entry is ':' plus the k-th column. This
      holds when the keys hold no comma and no outer space. */
  lemma SaveColumnsBind<V>(l: Listing<V>)
    requires |l.properties| >= 1 && PlainKeys(l)
    ensures var s := Save(l).sql;
            var i := |InsertHead|;
            var j := i + |ColumnList(l)|;
            var h := j + |ValuesHead|;
            && |s| >= h + |InsertTail|
            && s[..i] == InsertHead && s[j..h] == ValuesHead && s[|s| - |InsertTail|..] == InsertTail
            && ListsBind(Split(s[i..j], ','), Split(s[h..|s| - |InsertTail|], ','), Keys(l.properties))
  {
    SaveSqlParts(l);
    ListsBindHold(l);
  }

  /** The column list and the VALUES list of a listing with plain keys bind. */
  lemma ListsBindHold<V>(l: Listing<V>)
    requires |l.properties| >= 1 && PlainKeys(l)
    ensures ListsBind(Split(ColumnList(l), ','), Split(ValueList(l), ','), Keys(l.properties))
  {
    ColumnListSplit(l);
    ValueListSplit(l);
    var ks := ["id"] + Keys(l.properties);
    PairUp(Split(ColumnList(l), ','), Split(ValueList(l), ','), ks);
    assert forall k :: 0 <= k < |l.properties| ==> ks[k + 1] == Keys(l.properties)[k];
  }

  /** Parameters of a saved listing read back from a row: every column of the
      row gets its value, and nothing else is bound. */
  lemma FromDbDictThenSave<V>(d: Dict<V>)
    requires DistinctKeys(d) && "id" in Keys(d)
    ensures FromDbDict(d).Ok?
    ensures forall x :: Get(Save(FromDbDict(d).value).params, x) == Get(d, x)
  {
  }

  // ---------------------------------------------------------------------------
  // __str__
  // ---------------------------------------------------------------------------

  /** `f'{k}={v}'` for each property, in insertion order. */
  function Items<V>(l: Listing<V>, show: V -> string): (items: seq<string>)
    ensures |items| == |l.properties|
    ensures forall k :: 0 <= k < |items| ==>
              items[k] == l.properties[k].0 + "=" + show(l.properties[k].1)
  {
    seq(|l.properties|, k requires 0 <= k < |l.properties| =>
      l.properties[k].0 + "=" + show(l.properties[k].1))
  }

  const ListingLead := "Listing(id="

  /** __str__, with `show` standing for the f-string rendering of a value. */
  function ToString<V>(l: Listing<V>, show: V -> string): (s: string)
    ensures |s| >= |ListingLead| + 3
    ensures s[..|ListingLead|] == ListingLead
    ensures s[|s| - 1] == ')'
  {
    ListingLead + show(l.id) + ", " + Join(Items(l, show), ", ") + ")"
  }

  /** A listing without properties still prints the separator: `Listing(id=X, )`. */
  lemma ToStringNoProperties<V>(l: Listing<V>, show: V -> string)
    requires l.properties == []
    ensures ToString(l, show) == ListingLead + show(l.id) + ", )"
  {
  }

  /** The properties appear as `k=v` entries, in insertion order: with keys and
      rendered values free of commas and outer space, splitting the text between
      the id and the closing parenthesis recovers them. */
  lemma ToStringItems<V>(l: Listing<V>, show: V -> string)
    requires |l.properties| >= 1
    requires forall k :: 0 <= k < |l.properties| ==>
               var item := l.properties[k].0 + "=" + show(l.properties[k].1);
               ',' !in item && NoOuterSpace(item)
    ensures var s := ToString(l, show);
            var head := ListingLead + show(l.id) + ", ";
            var parts := Split(s[|head|..|s| - 1], ',');
            && s[..|head|] == head
            && |parts| == |l.properties|
            && forall k :: 0 <= k < |parts| ==>
                 Strip(parts[k]) == l.properties[k].0 + "=" + show(l.properties[k].1)
  {
    var items := Items(l, show);
    SplitCommaSpace(items);
    var s := ToString(l, show);
    var head := ListingLead + show(l.id) + ", ";
    assert s == head + Join(items, ", ") + ")";
    assert s[|head|..|s| - 1] == Join(items, ", ");
  }
}
