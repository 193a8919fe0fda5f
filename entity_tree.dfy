// The data side of the entity tree: the category names listed at the root
// (`fetch_entity_categories`), the `id:name` label and the path of each
// entity item (`fill_tree_with_entity_data`), and how a clicked label is cut
// back to the entity id (`build_and_fill_scroll_gui`).

module EntityTree {
  import opened Decimal
  import opened Cells
  import opened Slicing

  /** The rows of the category query become their first field's text, or nothing for a row without fields. */
  function EntityCategories(rs: RecordSet, formatReal: RealFormat): (names: seq<string>)
    ensures |names| == |rs.records|
    ensures forall k :: 0 <= k < |names| && rs.records[k].fields == [] ==> names[k] == []
    ensures forall k :: 0 <= k < |names| && rs.records[k].fields != [] ==>
              names[k] == ToText(rs.records[k].fields[0], formatReal)
  {
    seq(|rs.records|, k requires 0 <= k < |rs.records| =>
      match |rs.records[k].fields|
      case 0 => []
      case _ => ToText(rs.records[k].fields[0], formatReal))
  }

  /** When every category row holds a text name first, the categories are exactly those names, in row order. */
  lemma CategoriesOfTextColumn(rs: RecordSet, formatReal: RealFormat)
    requires forall k :: 0 <= k < |rs.records| ==> |rs.records[k].fields| >= 1 && rs.records[k].fields[0].Text?
    ensures EntityCategories(rs, formatReal) == seq(|rs.records|, k requires 0 <= k < |rs.records| => rs.records[k].fields[0].t)
  {
  }

  /** The tree label of an entity: its id, a ':' and its name. */
  function EntityLabel(id: string, name: string): string {
    id + ":" + name
  }

  /** The tree path of an entity item: the parent's path, a '/' and the item's label. */
  function EntityPath(parentPath: string, itemLabel: string): string {
    parentPath + "/" + itemLabel
  }

  /** Cutting a label at its first ':' gives back the id whenever the id holds no ':'. */
  lemma {:induction false} LabelRoundTrip(id: string, name: string)
    requires ':' !in id
    ensures SliceBeginningOfString(EntityLabel(id, name), ":") == id
  {
    var itemLabel := EntityLabel(id, name);
    var r := SliceBeginningOfString(itemLabel, ":");
    assert OccursAt(itemLabel, ":", |id|) by {
      assert itemLabel[|id|..|id| + 1] == ":";
    }
    forall j: nat | j < |id| ensures !OccursAt(itemLabel, ":", j) {
      assert itemLabel[j] == id[j];
      assert itemLabel[j..j + 1] == [id[j]];
    }
    assert |r| >= |id|;
    assert r == itemLabel[..|r|];
    assert |r| == |id|;
    assert itemLabel[..|id|] == id;
  }

  /** A one-character delimiter occurs exactly where that character stands. */
  lemma OccursSingle(s: string, c: char, i: nat)
    ensures OccursAt(s, [c], i) <==> i < |s| && s[i] == c
  {
    if i < |s| {
      assert s[i..i + 1] == [s[i]];
    }
  }

  /** The last '/'-piece of an item's path is its label whenever the label holds no '/'. */
  lemma {:induction false} PathRoundTrip(parentPath: string, itemLabel: string)
    requires '/' !in itemLabel
    ensures SliceEndOfString(EntityPath(parentPath, itemLabel), "/") == itemLabel
  {
    var path := EntityPath(parentPath, itemLabel);
    var r := SliceEndOfString(path, "/");
    var at := |parentPath|;
    OccursSingle(path, '/', at);
    var start := |path| - |r| - 1;
    OccursSingle(path, '/', start);
    // No '/' follows the parent's separator ...
    forall q | at < q < |path| ensures path[q] != '/' {
      assert path[q] == itemLabel[q - at - 1];
    }
    // ... and none follows the separator just before r.
    forall q | start < q < |path| ensures path[q] != '/' {
      OccursSingle(r, '/', q - start - 1);
      assert r[q - start - 1] == path[q];
    }
    assert start == at;
    assert path[at + 1..] == itemLabel;
  }

  /** The label of the tree item for a record: its first field's text, a ':', its second field's text. */
  function RowLabel(r: Record, formatReal: RealFormat): string
    requires |r.fields| >= 2
  {
    EntityLabel(ToText(r.fields[0], formatReal), ToText(r.fields[1], formatReal))
  }

  /**
   * Clicking the item of a record with an integer id hands the scroll form
   * an id whose text reads back to that integer.
   */
  lemma IntegerIdRoundTrip(r: Record, formatReal: RealFormat)
    requires |r.fields| >= 2 && r.fields[0].Integer?
    ensures var eid := SliceBeginningOfString(RowLabel(r, formatReal), ":");
      IsSignedDigits(eid) && ParseInt(eid) == r.fields[0].i as int
  {
    LabelRoundTrip(ToText(r.fields[0], formatReal), ToText(r.fields[1], formatReal));
  }

  /** One item added under a category: its label and full path. */
  datatype TreeEntry = TreeEntry(itemLabel: string, path: string)

  /**
   * The labels and paths `fill_tree_with_entity_data` adds under the
   * category item whose path is `parentPath`, one per record in record
   * order. A click on an item whose id is an integer gives back that id.
   */
  method EntityTreeEntries(rs: RecordSet, parentPath: string, formatReal: RealFormat)
    returns (entries: seq<TreeEntry>)
    requires forall k :: 0 <= k < |rs.records| ==> |rs.records[k].fields| >= 2
    ensures |entries| == |rs.records|
    ensures forall k :: 0 <= k < |entries| ==> entries[k].itemLabel == RowLabel(rs.records[k], formatReal)
    ensures forall k :: 0 <= k < |entries| ==> entries[k].path == EntityPath(parentPath, entries[k].itemLabel)
    ensures forall k :: 0 <= k < |entries| && ':' !in ToText(rs.records[k].fields[0], formatReal) ==>
              SliceBeginningOfString(entries[k].itemLabel, ":") == ToText(rs.records[k].fields[0], formatReal)
  {
    entries := [];
    for k := 0 to |rs.records|
      invariant |entries| == k
      invariant forall j :: 0 <= j < k ==> entries[j].itemLabel == RowLabel(rs.records[j], formatReal)
      invariant forall j :: 0 <= j < k ==> entries[j].path == EntityPath(parentPath, entries[j].itemLabel)
    {
      var row := rs.records[k];
      var id := ToText(row.fields[0], formatReal);
      var name := ToText(row.fields[1], formatReal);
      var itemLabel := id + ":" + name;
      var path := parentPath + "/" + itemLabel;
      entries := entries + [TreeEntry(itemLabel, path)];
    }
    forall k | 0 <= k < |entries| && ':' !in ToText(rs.records[k].fields[0], formatReal)
      ensures SliceBeginningOfString(entries[k].itemLabel, ":") == ToText(rs.records[k].fields[0], formatReal)
    {
      LabelRoundTrip(ToText(rs.records[k].fields[0], formatReal), ToText(rs.records[k].fields[1], formatReal));
    }
  }
}
