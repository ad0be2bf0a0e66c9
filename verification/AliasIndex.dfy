/**
 * The Alias table's indexes (src/domain/provider-aliases.ts), which replace
 * scans of the whole table, against the scans themselves. `fold` stands for
 * toLocaleLowerCase, about which nothing is assumed.
 */
module AliasIndex {
  import opened Lists

  datatype Row = Row(
    providerId: string, key: string, publicModel: string, upstreamModel: string,
    routable: bool, customAccountId: Option<string>)

  // ---- Overlap flags ------------------------------------------------------------------

  /** `other` serves, as a raw upstream id of another provider, the name `row` publishes. */
  predicate Overlaps(fold: string -> string, other: Row, row: Row) {
    && other.providerId != row.providerId
    && other.upstreamModel == row.publicModel
    && fold(other.publicModel) != fold(row.publicModel)
  }

  /** The scan over the whole table. */
  predicate NameOverlaps(fold: string -> string, row: Row, rows: seq<Row>) {
    exists i :: 0 <= i < |rows| && Overlaps(fold, rows[i], row)
  }

  /** A row is flagged for another provider's row whose raw upstream id is the name it publishes, if that row publishes another name. */
  lemma FlaggedExactly(fold: string -> string, rows: seq<Row>, i: nat)
    requires i < |rows|
    ensures NameOverlaps(fold, rows[i], rows) <==> exists j ::
      && 0 <= j < |rows| && rows[j].providerId != rows[i].providerId
      && rows[j].upstreamModel == rows[i].publicModel && fold(rows[j].publicModel) != fold(rows[i].publicModel)
  {
  }

  const SEPARATOR := '\0'

  function OverlapTag(fold: string -> string, row: Row): string {
    row.providerId + [SEPARATOR] + fold(row.publicModel)
  }

  predicate TagOverlaps(fold: string -> string, tag: string, row: Row) {
    var separator := IndexOf(tag, SEPARATOR);
    separator < |tag| && tag[..separator] != row.providerId && tag[separator + 1..] != fold(row.publicModel)
  }

  method BucketOverlapsRow(fold: string -> string, bucket: set<string>, row: Row) returns (overlaps: bool)
    ensures overlaps <==> exists tag :: tag in bucket && TagOverlaps(fold, tag, row)
  {
    var rest := bucket;
    while rest != {}
      invariant rest <= bucket && forall tag :: tag in bucket - rest ==> !TagOverlaps(fold, tag, row)
    {
      var tag :| tag in rest;
      if TagOverlaps(fold, tag, row) { return true; }
      rest := rest - {tag};
    }
    return false;
  }

  lemma TagDecides(fold: string -> string, other: Row, row: Row)
    requires SEPARATOR !in other.providerId && other.upstreamModel == row.publicModel
    ensures TagOverlaps(fold, OverlapTag(fold, other), row) <==> Overlaps(fold, other, row)
  {
    var tag := OverlapTag(fold, other);
    var n := |other.providerId|;
    assert tag[n] == SEPARATOR && forall j :: 0 <= j < n ==> tag[j] == other.providerId[j];
    assert IndexOf(tag, SEPARATOR) == n;
    assert tag[..n] == other.providerId && tag[n + 1..] == fold(other.publicModel);
  }

  ghost predicate InBucket(buckets: map<string, set<string>>, model: string, tag: string) {
    model in buckets && tag in buckets[model]
  }

  ghost predicate TaggedBy(fold: string -> string, rows: seq<Row>, model: string, tag: string) {
    exists i :: 0 <= i < |rows| && rows[i].upstreamModel == model && OverlapTag(fold, rows[i]) == tag
  }

  method BucketsByUpstream(fold: string -> string, rows: seq<Row>) returns (buckets: map<string, set<string>>)
    ensures forall model, tag :: InBucket(buckets, model, tag) <==> TaggedBy(fold, rows, model, tag)
  {
    buckets := map[];
    for k := 0 to |rows|
      invariant forall model, tag :: InBucket(buckets, model, tag) <==> TaggedBy(fold, rows[..k], model, tag)
    {
      var tag := OverlapTag(fold, rows[k]);
      var model := rows[k].upstreamModel;
      ghost var before := buckets;
      buckets := buckets[model := (if model in buckets then buckets[model] else {}) + {tag}];
      forall m, t ensures InBucket(buckets, m, t) <==> TaggedBy(fold, rows[..k + 1], m, t) {
        assert InBucket(buckets, m, t) <==> InBucket(before, m, t) || (m == model && t == tag);
        TaggedByOneMore(fold, rows, k, m, t);
      }
    }
    assert rows[..|rows|] == rows;
  }

  lemma TaggedByOneMore(fold: string -> string, rows: seq<Row>, k: nat, model: string, tag: string)
    requires k < |rows|
    ensures TaggedBy(fold, rows[..k + 1], model, tag) <==>
      TaggedBy(fold, rows[..k], model, tag) || (rows[k].upstreamModel == model && OverlapTag(fold, rows[k]) == tag)
  {
    assert rows[..k + 1] == rows[..k] + [rows[k]];
    assert rows[..k + 1][k] == rows[k];
    if TaggedBy(fold, rows[..k], model, tag) {
      var i :| 0 <= i < k && rows[..k][i].upstreamModel == model && OverlapTag(fold, rows[..k][i]) == tag;
      assert rows[..k + 1][i] == rows[..k][i];
    }
  }

  /** The keys flagged by the one indexed pass are exactly those the scan flags. */
  method AliasOverlapFlags(fold: string -> string, rows: seq<Row>) returns (flags: set<string>)
    requires forall i :: 0 <= i < |rows| ==> SEPARATOR !in rows[i].providerId
    ensures forall key :: key in flags <==> exists i :: 0 <= i < |rows| && rows[i].key == key && NameOverlaps(fold, rows[i], rows)
  {
    var buckets := BucketsByUpstream(fold, rows);
    flags := {};
    for k := 0 to |rows|
      invariant forall key :: key in flags <==> exists i :: 0 <= i < k && rows[i].key == key && NameOverlaps(fold, rows[i], rows)
    {
      var row := rows[k];
      if row.publicModel in buckets {
        var overlaps := BucketOverlapsRow(fold, buckets[row.publicModel], row);
        BucketDecides(fold, rows, row, buckets);
        if overlaps { flags := flags + {row.key}; }
      } else {
        BucketDecides(fold, rows, row, buckets);
      }
    }
  }

  lemma BucketDecides(fold: string -> string, rows: seq<Row>, row: Row, buckets: map<string, set<string>>)
    requires forall i :: 0 <= i < |rows| ==> SEPARATOR !in rows[i].providerId
    requires forall model, tag :: InBucket(buckets, model, tag) <==> TaggedBy(fold, rows, model, tag)
    ensures NameOverlaps(fold, row, rows) <==> exists tag :: InBucket(buckets, row.publicModel, tag) && TagOverlaps(fold, tag, row)
  {
    if NameOverlaps(fold, row, rows) {
      var i :| 0 <= i < |rows| && Overlaps(fold, rows[i], row);
      TagDecides(fold, rows[i], row);
      assert TaggedBy(fold, rows, row.publicModel, OverlapTag(fold, rows[i]));
      assert InBucket(buckets, row.publicModel, OverlapTag(fold, rows[i]));
    }
    if tag :| InBucket(buckets, row.publicModel, tag) && TagOverlaps(fold, tag, row) {
      assert TaggedBy(fold, rows, row.publicModel, tag);
      var i :| 0 <= i < |rows| && rows[i].upstreamModel == row.publicModel && OverlapTag(fold, rows[i]) == tag;
      TagDecides(fold, rows[i], row);
    }
  }
}
