/** The table logic of `pipeline_clustering` in ml/model/similarity_search.py:
    keep the rows whose embedding is present, attach one cluster label per kept
    row, group the ids by label, comma-join each group, and left-merge the groups
    back onto the kept rows.

    The labels come from DBSCAN or HDBSCAN, library calls this model does not
    interpret, so they are an input aligned with the kept rows. Ids are Python
    ints, rendered by `str`.
 */
module Similarity {
  import opened Wrappers
  import opened Text

  /** A listing row: its id, its (nullable) fused embedding and the remaining
      columns, which the clustering step carries along untouched. */
  datatype Row<A> = Row(id: int, embedding: Option<seq<real>>, attrs: A)

  /** One row of the grouped frame: a cluster label and its comma-joined ids. */
  datatype Group = Group(cluster: int, listings: string)

  /** One output row: the kept row, its label, and the merged membership text
      (None is the NaN a left merge leaves when no group matches). */
  datatype Clustered<A> = Clustered(row: Row<A>, cluster: int, listingsInCluster: Option<string>)

  // ---------------------------------------------------------------------------
  // DBSCAN parameters
  // ---------------------------------------------------------------------------

  /** The non-PCA path's similarity threshold and minimum neighbourhood size. */
  const SimilarityThreshold: real := 0.93
  const MinSamples: nat := 2

  /** The cosine-distance radius handed to DBSCAN for a similarity threshold. */
  function Eps(threshold: real): (eps: real)
    ensures eps + threshold == 1.0
  {
    1.0 - threshold
  }

  /** Cosine distance is one minus cosine similarity, so a pair lies within the
      radius exactly when its similarity reaches the threshold. */
  lemma WithinEpsIff(threshold: real, similarity: real)
    ensures (1.0 - similarity <= Eps(threshold)) <==> similarity >= threshold
  {
  }

  /** The non-PCA radius. */
  lemma NonPcaEps()
    ensures Eps(SimilarityThreshold) == 0.07 && MinSamples == 2
  {
  }

  // ---------------------------------------------------------------------------
  // Filtering
  // ---------------------------------------------------------------------------

  /** The positions of the rows whose embedding is present, in increasing order. */
  function EmbeddedPositions<A>(rows: seq<Row<A>>): (ps: seq<nat>)
    ensures forall k :: 0 <= k < |ps| ==> ps[k] < |rows| && rows[ps[k]].embedding.Some?
    ensures forall k, m :: 0 <= k < m < |ps| ==> ps[k] < ps[m]
    ensures forall i :: 0 <= i < |rows| && rows[i].embedding.Some? ==> i in ps
  {
    if rows == [] then []
    else
      var n := |rows| - 1;
      var front := EmbeddedPositions(rows[..n]);
      if rows[n].embedding.Some? then front + [n] else front
  }

  /** `df[df['average_embedding'].notnull()]`: the rows with an embedding, in
      input order. The k-th kept row is the input row at the k-th embedded
      position, so kept rows keep their relative order and none is repeated. */
  function ValidRows<A>(rows: seq<Row<A>>): (v: seq<Row<A>>)
    ensures |v| == |EmbeddedPositions(rows)| <= |rows|
    ensures forall k :: 0 <= k < |v| ==> v[k] == rows[EmbeddedPositions(rows)[k]]
    ensures forall k :: 0 <= k < |v| ==> v[k].embedding.Some? && v[k] in rows
    ensures forall k :: 0 <= k < |rows| && rows[k].embedding.Some? ==> rows[k] in v
  {
    if rows == [] then []
    else
      var n := |rows| - 1;
      var front := ValidRows(rows[..n]);
      assert forall k :: 0 <= k < n ==> rows[..n][k] == rows[k];
      if rows[n].embedding.Some? then front + [rows[n]] else front
  }

  /** Every row has its own id. */
  predicate UniqueIds<A>(rows: seq<Row<A>>) {
    forall i, j :: 0 <= i < j < |rows| ==> rows[i].id != rows[j].id
  }

  /** Filtering keeps the ids unique. */
  lemma ValidRowsUnique<A>(rows: seq<Row<A>>)
    requires UniqueIds(rows)
    ensures UniqueIds(ValidRows(rows))
  {
    var v := ValidRows(rows);
    var ps := EmbeddedPositions(rows);
    forall i, j | 0 <= i < j < |v|
      ensures v[i].id != v[j].id
    {
      assert v[i] == rows[ps[i]] && v[j] == rows[ps[j]] && ps[i] < ps[j];
    }
  }

  /** With unique ids, two rows of the table that share an id are the same row. */
  lemma SameIdSameRow<A>(rows: seq<Row<A>>, a: Row<A>, b: Row<A>)
    requires UniqueIds(rows) && a in rows && b in rows && a.id == b.id
    ensures a == b
  {
    var i :| 0 <= i < |rows| && rows[i] == a;
    var j :| 0 <= j < |rows| && rows[j] == b;
    assert !(i < j) && !(j < i);
  }

  // ---------------------------------------------------------------------------
  // Grouping
  // ---------------------------------------------------------------------------

  /** The row positions carrying label c, in increasing order. */
  function Positions(labels: seq<int>, c: int): (ps: seq<nat>)
    ensures forall k :: 0 <= k < |ps| ==> ps[k] < |labels| && labels[ps[k]] == c
    ensures forall k, m :: 0 <= k < m < |ps| ==> ps[k] < ps[m]
    ensures forall i :: 0 <= i < |labels| && labels[i] == c ==> i in ps
  {
    if labels == [] then []
    else
      var n := |labels| - 1;
      var front := Positions(labels[..n], c);
      if labels[n] == c then front + [n] else front
  }

  /** Some kept row with label c has id x. */
  predicate CarriesId<A>(valid: seq<Row<A>>, labels: seq<int>, c: int, x: int)
    requires |labels| == |valid|
  {
    exists i :: 0 <= i < |valid| && labels[i] == c && valid[i].id == x
  }

  /** `groupby('cluster')['id'].apply(list)` for one label: the ids of the rows
      with that label, in row order. */
  function GroupIds<A>(valid: seq<Row<A>>, labels: seq<int>, c: int): (ids: seq<int>)
    requires |labels| == |valid|
    ensures |ids| == |Positions(labels, c)|
    ensures forall k :: 0 <= k < |ids| ==> CarriesId(valid, labels, c, ids[k])
    ensures forall i :: 0 <= i < |valid| && labels[i] == c ==> valid[i].id in ids
  {
    var ps := Positions(labels, c);
    var r := seq(|ps|, k requires 0 <= k < |ps| => valid[ps[k]].id);
    IdsAtPositions(valid, labels, c, r);
    r
  }

  /** The ids read at the positions of label c are exactly the ids of the rows
      carrying c. */
  lemma IdsAtPositions<A>(valid: seq<Row<A>>, labels: seq<int>, c: int, r: seq<int>)
    requires |labels| == |valid|
    requires |r| == |Positions(labels, c)|
    requires forall k :: 0 <= k < |r| ==> r[k] == valid[Positions(labels, c)[k]].id
    ensures forall k :: 0 <= k < |r| ==> CarriesId(valid, labels, c, r[k])
    ensures forall i :: 0 <= i < |valid| && labels[i] == c ==> valid[i].id in r
  {
    var ps := Positions(labels, c);
    forall k | 0 <= k < |r|
      ensures CarriesId(valid, labels, c, r[k])
    {
      var i := ps[k];
      assert 0 <= i < |valid| && labels[i] == c && valid[i].id == r[k];
    }
    forall i | 0 <= i < |valid| && labels[i] == c
      ensures valid[i].id in r
    {
      var k :| 0 <= k < |ps| && ps[k] == i;
      assert r[k] == valid[i].id;
    }
  }

  /** `map(str, ids)`. */
  function IdTexts(ids: seq<int>): (ts: seq<string>)
    ensures |ts| == |ids|
    ensures forall k :: 0 <= k < |ts| ==> ts[k] == IntToString(ids[k])
    ensures forall k :: 0 <= k < |ts| ==> ',' !in ts[k]
    ensures forall k, m :: 0 <= k < |ts| && 0 <= m < |ts| && ids[k] != ids[m] ==> ts[k] != ts[m]
  {
    var ts := seq(|ids|, k requires 0 <= k < |ids| => IntToString(ids[k]));
    forall k | 0 <= k < |ts|
      ensures ',' !in ts[k]
    {
      IntToStringAvoids(ids[k], ',');
    }
    forall k, m | 0 <= k < |ts| && 0 <= m < |ts| && ids[k] != ids[m]
      ensures ts[k] != ts[m]
    {
      IntToStringInjective(ids[k], ids[m]);
    }
    ts
  }

  /** `','.join(map(str, ids))`. */
  function JoinIds(ids: seq<int>): string {
    Join(IdTexts(ids), ",")
  }

  /** The labels in order of first appearance, each once. */
  function DistinctLabels(labels: seq<int>): (d: seq<int>)
    ensures forall k, m :: 0 <= k < m < |d| ==> d[k] != d[m]
    ensures forall c :: c in d <==> c in labels
  {
    if labels == [] then []
    else
      var n := |labels| - 1;
      var front := DistinctLabels(labels[..n]);
      assert forall c :: c in labels <==> c in labels[..n] || c == labels[n] by {
        assert labels == labels[..n] + [labels[n]];
      }
      if labels[n] in front then front else front + [labels[n]]
  }

  /** A group sequence keyed position by position by d has a group for each
      element of d. */
  lemma KeysCover(d: seq<int>, gs: seq<Group>)
    requires |gs| == |d|
    requires forall k :: 0 <= k < |d| ==> gs[k].cluster == d[k]
    ensures forall c :: c in d ==> exists k :: 0 <= k < |gs| && gs[k].cluster == c
  {
    forall c | c in d
      ensures exists k :: 0 <= k < |gs| && gs[k].cluster == c
    {
      var k :| 0 <= k < |d| && d[k] == c;
      assert gs[k].cluster == c;
    }
  }

  /** The grouped frame: one row per distinct label with its joined ids. */
  function ClusterGroups<A>(valid: seq<Row<A>>, labels: seq<int>): (gs: seq<Group>)
    requires |labels| == |valid|
    ensures forall k, m :: 0 <= k < m < |gs| ==> gs[k].cluster != gs[m].cluster
    ensures forall c :: c in labels <==> exists k :: 0 <= k < |gs| && gs[k].cluster == c
    ensures forall k :: 0 <= k < |gs| ==> gs[k].listings == JoinIds(GroupIds(valid, labels, gs[k].cluster))
  {
    var d := DistinctLabels(labels);
    var gs := seq(|d|, k requires 0 <= k < |d| => Group(d[k], JoinIds(GroupIds(valid, labels, d[k]))));
    KeysCover(d, gs);
    gs
  }

  // ---------------------------------------------------------------------------
  // Left merge
  // ---------------------------------------------------------------------------

  /** The groups whose key equals c, in order. */
  function Matching(gs: seq<Group>, c: int): (m: seq<Group>)
    ensures forall k :: 0 <= k < |m| ==> m[k] in gs && m[k].cluster == c
    ensures (forall k :: 0 <= k < |gs| ==> gs[k].cluster != c) ==> m == []
  {
    if gs == [] then []
    else if gs[0].cluster == c then [gs[0]] + Matching(gs[1..], c)
    else Matching(gs[1..], c)
  }

  /** The merge of one left row: one output row per matching group, or a single
      row with a null membership text when none matches. */
  function MergeOne<A>(row: Row<A>, c: int, gs: seq<Group>): (r: seq<Clustered<A>>)
    ensures |r| == if |Matching(gs, c)| == 0 then 1 else |Matching(gs, c)|
    ensures forall i :: 0 <= i < |r| ==> r[i].row == row && r[i].cluster == c
    ensures forall i :: 0 <= i < |r| ==> (r[i].listingsInCluster.None? <==> Matching(gs, c) == [])
  {
    var m := Matching(gs, c);
    if m == [] then [Clustered(row, c, None)]
    else seq(|m|, k requires 0 <= k < |m| => Clustered(row, c, Some(m[k].listings)))
  }

  /** `merge(..., on='cluster', how='left')`: left rows in order, each expanded
      by its matches. No left row is dropped, the first left row leads, and when
      no key has two groups the output has exactly one row per left row. */
  function LeftMerge<A>(left: seq<Row<A>>, labels: seq<int>, gs: seq<Group>): (r: seq<Clustered<A>>)
    requires |labels| == |left|
    ensures |r| >= |left|
    ensures left != [] ==> r[0].row == left[0] && r[0].cluster == labels[0]
    ensures (forall j :: 0 <= j < |labels| ==> |Matching(gs, labels[j])| <= 1) ==> |r| == |left|
  {
    if left == [] then []
    else
      var lt := labels[1..];
      assert forall j :: 0 <= j < |lt| ==> lt[j] == labels[j + 1];
      MergeOne(left[0], labels[0], gs) + LeftMerge(left[1..], lt, gs)
  }

  /** With distinct keys, a key that occurs matches exactly its group. */
  lemma {:induction false} MatchingUnique(gs: seq<Group>, c: int, k: nat)
    requires forall i, j :: 0 <= i < j < |gs| ==> gs[i].cluster != gs[j].cluster
    requires k < |gs| && gs[k].cluster == c
    ensures Matching(gs, c) == [gs[k]]
  {
    var rest := gs[1..];
    assert forall i :: 0 <= i < |rest| ==> rest[i] == gs[i + 1];
    if k == 0 {
      assert forall i :: 0 <= i < |rest| ==> rest[i].cluster != c;
    } else {
      assert gs[0].cluster != c;
      MatchingUnique(rest, c, k - 1);
    }
  }

  /** When every left key has its group among distinct keys, the left merge
      gives exactly one row per left row, in order, with the group's text. */
  lemma {:induction false} LeftMergeExact<A>(left: seq<Row<A>>, labels: seq<int>, gs: seq<Group>)
    requires |labels| == |left|
    requires forall i, j :: 0 <= i < j < |gs| ==> gs[i].cluster != gs[j].cluster
    requires forall i :: 0 <= i < |labels| ==> exists k :: 0 <= k < |gs| && gs[k].cluster == labels[i]
    ensures var out := LeftMerge(left, labels, gs);
            |out| == |left|
            && forall i :: 0 <= i < |out| ==>
                 out[i].row == left[i] && out[i].cluster == labels[i]
                 && exists k :: 0 <= k < |gs| && gs[k].cluster == labels[i]
                                && out[i].listingsInCluster == Some(gs[k].listings)
  {
    if left != [] {
      var k :| 0 <= k < |gs| && gs[k].cluster == labels[0];
      MatchingUnique(gs, labels[0], k);
      var head := MergeOne(left[0], labels[0], gs);
      assert head == [Clustered(left[0], labels[0], Some(gs[k].listings))];
      var lt := labels[1..];
      assert forall i :: 0 <= i < |lt| ==> lt[i] == labels[i + 1];
      LeftMergeExact(left[1..], lt, gs);
      var out := LeftMerge(left, labels, gs);
      var tail := LeftMerge(left[1..], lt, gs);
      assert out == head + tail;
      forall i | 0 <= i < |out|
        ensures out[i].row == left[i] && out[i].cluster == labels[i]
        ensures exists m :: 0 <= m < |gs| && gs[m].cluster == labels[i]
                            && out[i].listingsInCluster == Some(gs[m].listings)
      {
        if i == 0 {
          assert out[0] == head[0];
        } else {
          assert out[i] == tail[i - 1];
          assert left[1..][i - 1] == left[i] && lt[i - 1] == labels[i];
        }
      }
    }
  }

  // ---------------------------------------------------------------------------
  // The pipeline
  // ---------------------------------------------------------------------------

  /** The membership text of label c among the kept rows. */
  function ListingsOf<A>(valid: seq<Row<A>>, labels: seq<int>, c: int): string
    requires |labels| == |valid|
  {
    JoinIds(GroupIds(valid, labels, c))
  }

  /** pipeline_clustering, from the filtered rows onward: `labels` holds one
      cluster label per kept row, as the clusterer returns them. */
  function PipelineClustering<A>(rows: seq<Row<A>>, labels: seq<int>): (out: seq<Clustered<A>>)
    requires |labels| == |ValidRows(rows)|
    ensures var valid := ValidRows(rows);
            |out| == |valid|
            && forall i :: 0 <= i < |out| ==>
                 out[i].row == valid[i] && out[i].cluster == labels[i]
                 && out[i].listingsInCluster == Some(ListingsOf(valid, labels, labels[i]))
    ensures var ps := EmbeddedPositions(rows);
            |out| == |ps| && forall i :: 0 <= i < |out| ==> out[i].row == rows[ps[i]]
  {
    var valid := ValidRows(rows);
    MergedGroups(valid, labels);
    LeftMerge(valid, labels, ClusterGroups(valid, labels))
  }

  /** Merging the grouped frame back gives each kept row its own label's text. */
  lemma MergedGroups<A>(valid: seq<Row<A>>, labels: seq<int>)
    requires |labels| == |valid|
    ensures var out := LeftMerge(valid, labels, ClusterGroups(valid, labels));
            |out| == |valid|
            && forall i :: 0 <= i < |out| ==>
                 out[i].row == valid[i] && out[i].cluster == labels[i]
                 && out[i].listingsInCluster == Some(ListingsOf(valid, labels, labels[i]))
  {
    var gs := ClusterGroups(valid, labels);
    assert forall i :: 0 <= i < |labels| ==> labels[i] in labels;
    LeftMergeExact(valid, labels, gs);
    var out := LeftMerge(valid, labels, gs);
    forall i | 0 <= i < |out|
      ensures out[i].listingsInCluster == Some(ListingsOf(valid, labels, labels[i]))
    {
      var k :| 0 <= k < |gs| && gs[k].cluster == labels[i] && out[i].listingsInCluster == Some(gs[k].listings);
      assert gs[k].listings == JoinIds(GroupIds(valid, labels, gs[k].cluster));
    }
  }

  // ---------------------------------------------------------------------------
  // Properties of the membership text
  // ---------------------------------------------------------------------------

  /** Splitting a group's text on ',' gives back its ids as text, in row order. */
  lemma ListingsSplit<A>(valid: seq<Row<A>>, labels: seq<int>, c: int)
    requires |labels| == |valid| && c in labels
    ensures Split(ListingsOf(valid, labels, c), ',') == IdTexts(GroupIds(valid, labels, c))
  {
    var i :| 0 <= i < |labels| && labels[i] == c;
    assert i in Positions(labels, c);
    var ts := IdTexts(GroupIds(valid, labels, c));
    forall k | 0 <= k < |ts|
      ensures ',' !in ts[k]
    {
      IntToStringAvoids(GroupIds(valid, labels, c)[k], ',');
    }
    SplitJoin(ts, ',');
  }

  /** The ids listed for label c are exactly those of the kept rows with that
      label. */
  lemma GroupIdsMembers<A>(valid: seq<Row<A>>, labels: seq<int>, c: int, x: int)
    requires |labels| == |valid|
    ensures x in GroupIds(valid, labels, c) <==> CarriesId(valid, labels, c, x)
  {
    var ps := Positions(labels, c);
    var ids := GroupIds(valid, labels, c);
    if x in ids {
      var k :| 0 <= k < |ids| && ids[k] == x;
      assert labels[ps[k]] == c && valid[ps[k]].id == x;
    }
    if CarriesId(valid, labels, c, x) {
      var i :| 0 <= i < |valid| && labels[i] == c && valid[i].id == x;
      var k :| 0 <= k < |ps| && ps[k] == i;
      assert ids[k] == x;
    }
  }

  /** A group lists its ids in input row order: the k-th id is that of the
      input row at the k-th position carrying the label, and those input
      positions increase. */
  lemma GroupInRowOrder<A>(rows: seq<Row<A>>, labels: seq<int>, c: int)
    requires |labels| == |ValidRows(rows)|
    ensures var ps := Positions(labels, c);
            var es := EmbeddedPositions(rows);
            var ids := GroupIds(ValidRows(rows), labels, c);
            && (forall k :: 0 <= k < |ids| ==> ps[k] < |es| && ids[k] == rows[es[ps[k]]].id)
            && (forall k, m :: 0 <= k < m < |ids| ==> es[ps[k]] < es[ps[m]])
  {
    var valid := ValidRows(rows);
    var ps := Positions(labels, c);
    var es := EmbeddedPositions(rows);
    var ids := GroupIds(valid, labels, c);
    forall k | 0 <= k < |ids|
      ensures ps[k] < |es| && ids[k] == rows[es[ps[k]]].id
    {
      assert ids[k] == valid[ps[k]].id;
    }
    forall k, m | 0 <= k < m < |ids|
      ensures es[ps[k]] < es[ps[m]]
    {
      assert ps[k] < ps[m];
    }
  }

  /** Every output row's membership list contains the row's own id. */
  lemma OwnIdListed<A>(rows: seq<Row<A>>, labels: seq<int>, i: nat)
    requires |labels| == |ValidRows(rows)| && i < |labels|
    ensures var out := PipelineClustering(rows, labels);
            IntToString(out[i].row.id) in Split(out[i].listingsInCluster.value, ',')
  {
    var valid := ValidRows(rows);
    var out := PipelineClustering(rows, labels);
    var c := labels[i];
    ListingsSplit(valid, labels, c);
    GroupIdsMembers(valid, labels, c, valid[i].id);
    var ids := GroupIds(valid, labels, c);
    var k :| 0 <= k < |ids| && ids[k] == valid[i].id;
    assert IdTexts(ids)[k] == IntToString(valid[i].id);
  }

  /** Rows with the same label receive the same membership text. */
  lemma SameLabelSameText<A>(rows: seq<Row<A>>, labels: seq<int>, i: nat, j: nat)
    requires |labels| == |ValidRows(rows)| && i < |labels| && j < |labels|
    ensures var out := PipelineClustering(rows, labels);
            labels[i] == labels[j] ==> out[i].listingsInCluster == out[j].listingsInCluster
  {
  }

  /** The noise label -1 is an ordinary group: all noise rows share one text,
      which lists every noise row. */
  lemma NoiseIsOneGroup<A>(rows: seq<Row<A>>, labels: seq<int>, i: nat)
    requires |labels| == |ValidRows(rows)| && i < |labels| && labels[i] == -1
    ensures var valid := ValidRows(rows);
            var out := PipelineClustering(rows, labels);
            Split(out[i].listingsInCluster.value, ',') == IdTexts(GroupIds(valid, labels, -1))
            && forall j :: 0 <= j < |labels| && labels[j] == -1 ==>
                 IntToString(valid[j].id) in Split(out[i].listingsInCluster.value, ',')
  {
    var valid := ValidRows(rows);
    var out := PipelineClustering(rows, labels);
    ListingsSplit(valid, labels, -1);
    forall j | 0 <= j < |labels| && labels[j] == -1
      ensures IntToString(valid[j].id) in Split(out[i].listingsInCluster.value, ',')
    {
      OwnIdListed(rows, labels, j);
    }
  }

  /** An id text in a membership list names a kept row with that label. */
  lemma ListedMeansLabelled<A>(valid: seq<Row<A>>, labels: seq<int>, c: int, x: int)
    requires |labels| == |valid| && c in labels
    requires IntToString(x) in Split(ListingsOf(valid, labels, c), ',')
    ensures exists j :: 0 <= j < |valid| && labels[j] == c && valid[j].id == x
  {
    ListingsSplit(valid, labels, c);
    var ids := GroupIds(valid, labels, c);
    var ts := IdTexts(ids);
    var k :| 0 <= k < |ts| && ts[k] == IntToString(x);
    IntToStringInjective(ids[k], x);
    GroupIdsMembers(valid, labels, c, x);
  }

  /** With unique ids, membership is symmetric: if A is listed for B then B is
      listed for A. */
  lemma MembershipSymmetric<A>(rows: seq<Row<A>>, labels: seq<int>, a: nat, b: nat)
    requires UniqueIds(rows)
    requires |labels| == |ValidRows(rows)| && a < |labels| && b < |labels|
    ensures var out := PipelineClustering(rows, labels);
            IntToString(out[a].row.id) in Split(out[b].listingsInCluster.value, ',') ==>
            IntToString(out[b].row.id) in Split(out[a].listingsInCluster.value, ',')
  {
    var valid := ValidRows(rows);
    var out := PipelineClustering(rows, labels);
    if IntToString(out[a].row.id) in Split(out[b].listingsInCluster.value, ',') {
      ListedMeansLabelled(valid, labels, labels[b], valid[a].id);
      var j :| 0 <= j < |valid| && labels[j] == labels[b] && valid[j].id == valid[a].id;
      ValidRowsUnique(rows);
      assert !(j < a) && !(a < j);
      OwnIdListed(rows, labels, b);
    }
  }

  /** With unique ids, the id of a row without an embedding is in no group. */
  lemma ExcludedNotGrouped<A>(rows: seq<Row<A>>, labels: seq<int>, r: Row<A>, c: int)
    requires UniqueIds(rows) && r in rows && r.embedding.None?
    requires |labels| == |ValidRows(rows)|
    ensures r.id !in GroupIds(ValidRows(rows), labels, c)
  {
    var valid := ValidRows(rows);
    var ids := GroupIds(valid, labels, c);
    forall k | 0 <= k < |ids|
      ensures ids[k] != r.id
    {
      var j :| 0 <= j < |valid| && labels[j] == c && valid[j].id == ids[k];
      assert valid[j] in rows && valid[j] != r;
      assert valid[j].id != r.id by {
        if valid[j].id == r.id {
          SameIdSameRow(rows, valid[j], r);
        }
      }
    }
  }

  /** With unique ids, the id text of a row without an embedding is in no
      group's membership text. */
  lemma ExcludedTextAbsent<A>(rows: seq<Row<A>>, labels: seq<int>, r: Row<A>, c: int)
    requires UniqueIds(rows) && r in rows && r.embedding.None?
    requires |labels| == |ValidRows(rows)| && c in labels
    ensures IntToString(r.id) !in Split(ListingsOf(ValidRows(rows), labels, c), ',')
  {
    var valid := ValidRows(rows);
    ListingsSplit(valid, labels, c);
    ExcludedNotGrouped(rows, labels, r, c);
    var ids := GroupIds(valid, labels, c);
    var ts := IdTexts(ids);
    forall k | 0 <= k < |ts|
      ensures ts[k] != IntToString(r.id)
    {
      IntToStringInjective(ids[k], r.id);
    }
  }

  /** With unique ids, a row without an embedding is never listed: it is no
      output row, and its id text is in no membership list. */
  lemma ExcludedNeverListed<A>(rows: seq<Row<A>>, labels: seq<int>, r: Row<A>, i: nat)
    requires UniqueIds(rows) && r in rows && r.embedding.None?
    requires |labels| == |ValidRows(rows)| && i < |labels|
    ensures var out := PipelineClustering(rows, labels);
            forall o :: o in out ==> o.row != r
    ensures var out := PipelineClustering(rows, labels);
            IntToString(r.id) !in Split(out[i].listingsInCluster.value, ',')
  {
    var valid := ValidRows(rows);
    assert labels[i] in labels;
    ExcludedTextAbsent(rows, labels, r, labels[i]);
    var out := PipelineClustering(rows, labels);
    assert out[i].listingsInCluster.value == ListingsOf(valid, labels, labels[i]);
  }
}
