/**
  The per-article accumulator `KeyValue` and the `keyvalue` table it writes
  to and reads from.  The table is a sequence of rows; all database calls
  become pure functions on that sequence.
 */
module KeyValueStore {
  import opened Instances

  /** One row of the `keyvalue` table: (article_id, kvcategory, kvkey, kvvalue). */
  datatype Row = Row(articleId: int, category: string, key: string, value: string)

  type Table = seq<Row>

  /** A `KeyValue` object: the article it writes for and the triples added
      so far in this request, oldest first. */
  datatype KeyValue = KeyValue(articleId: int, kvs: seq<Instance>)

  /** One entry of the category listing: a category and its row count. */
  datatype CategoryCount = CategoryCount(category: string, count: nat)

  // ----- selections over the table -------------------------------------

  /** The rows that belong to article `id`, in table order. */
  function RowsOf(t: Table, id: int): (r: Table)
    ensures forall i :: 0 <= i < |r| ==> r[i].articleId == id
    ensures |r| <= |t|
  {
    if |t| == 0 then []
    else (if t[0].articleId == id then [t[0]] else []) + RowsOf(t[1..], id)
  }

  /** The table with every row of article `id` deleted. */
  function Without(t: Table, id: int): (r: Table)
    ensures forall i :: 0 <= i < |r| ==> r[i].articleId != id
  {
    if |t| == 0 then []
    else (if t[0].articleId == id then [] else [t[0]]) + Without(t[1..], id)
  }

  /** The rows that inserting `kvs` for article `id` adds, in order. */
  function Insert(id: int, kvs: seq<Instance>): (r: Table)
    ensures |r| == |kvs|
    ensures forall i :: 0 <= i < |r| ==>
      r[i] == Row(id, kvs[i].category, kvs[i].key, kvs[i].value)
  {
    if |kvs| == 0 then []
    else [Row(id, kvs[0].category, kvs[0].key, kvs[0].value)] + Insert(id, kvs[1..])
  }

  /** The triples the rows hold, with the article id dropped. */
  function InstancesOf(t: Table): (r: seq<Instance>)
    ensures |r| == |t|
    ensures forall i :: 0 <= i < |r| ==>
      r[i] == Instance(t[i].category, t[i].key, t[i].value)
  {
    if |t| == 0 then []
    else [Instance(t[0].category, t[0].key, t[0].value)] + InstancesOf(t[1..])
  }

  /** Selecting an article distributes over concatenation. */
  lemma {:induction false} RowsOfAppend(a: Table, b: Table, id: int)
    ensures RowsOf(a + b, id) == RowsOf(a, id) + RowsOf(b, id)
    decreases |a|
  {
    if |a| > 0 {
      assert (a + b)[1..] == a[1..] + b;
      RowsOfAppend(a[1..], b, id);
    } else {
      assert a + b == b;
    }
  }

  /** Deleting an article distributes over concatenation. */
  lemma {:induction false} WithoutAppend(a: Table, b: Table, id: int)
    ensures Without(a + b, id) == Without(a, id) + Without(b, id)
    decreases |a|
  {
    if |a| > 0 {
      assert (a + b)[1..] == a[1..] + b;
      WithoutAppend(a[1..], b, id);
    } else {
      assert a + b == b;
    }
  }

  /** Deleting article `id` empties its selection and leaves every other
      article's selection as it was. */
  lemma {:induction false} RowsOfWithout(t: Table, id: int, other: int)
    ensures RowsOf(Without(t, id), id) == []
    ensures other != id ==> RowsOf(Without(t, id), other) == RowsOf(t, other)
    decreases |t|
  {
    if |t| > 0 {
      var head := if t[0].articleId == id then [] else [t[0]];
      RowsOfAppend(head, Without(t[1..], id), id);
      RowsOfAppend(head, Without(t[1..], id), other);
      RowsOfWithout(t[1..], id, other);
    }
  }

  /** A table that holds no row of article `id` is left alone by deleting it. */
  lemma {:induction false} WithoutAbsent(t: Table, id: int)
    requires forall i :: 0 <= i < |t| ==> t[i].articleId != id
    ensures Without(t, id) == t
    decreases |t|
  {
    if |t| > 0 {
      WithoutAbsent(t[1..], id);
    }
  }

  /** A table whose rows all belong to article `id` is its own selection. */
  lemma {:induction false} RowsOfOwn(t: Table, id: int, other: int)
    requires forall i :: 0 <= i < |t| ==> t[i].articleId == id
    ensures RowsOf(t, id) == t
    ensures other != id ==> RowsOf(t, other) == []
    ensures Without(t, id) == []
    decreases |t|
  {
    if |t| > 0 {
      RowsOfOwn(t[1..], id, other);
    }
  }

  // ----- the KeyValue object -------------------------------------------

  /** `new KeyValue($articleId)`: nothing pending yet. */
  function New(articleId: int): (kv: KeyValue)
    ensures kv.articleId == articleId
    ensures |kv.kvs| == 0
  {
    KeyValue(articleId, [])
  }

  /** `add`: one more triple at the end of the pending list; the earlier
      entries and the article stay as they were. */
  function Add(kv: KeyValue, category: string, key: string, value: string): (r: KeyValue)
    ensures r.articleId == kv.articleId
    ensures |r.kvs| == |kv.kvs| + 1
    ensures r.kvs[..|kv.kvs|] == kv.kvs
    ensures r.kvs[|kv.kvs|] == Instance(category, key, value)
  {
    kv.(kvs := kv.kvs + [Instance(category, key, value)])
  }

  /** `store`, as one atomic step: every row of the article is deleted and
      the pending triples are inserted as they are, duplicates included.
      Reading the article back yields exactly the pending list; every other
      article reads back as before. */
  function Store(kv: KeyValue, t: Table): (r: Table)
    ensures InstancesOf(RowsOf(r, kv.articleId)) == kv.kvs
    ensures forall other :: other != kv.articleId ==> RowsOf(r, other) == RowsOf(t, other)
    ensures |r| == |t| - |RowsOf(t, kv.articleId)| + |kv.kvs|
  {
    var id := kv.articleId;
    ReplaceOwnRows(t, id, kv.kvs);
    forall other | other != id
      ensures RowsOf(Without(t, id) + Insert(id, kv.kvs), other) == RowsOf(t, other)
    {
      ReplaceOtherRows(t, id, kv.kvs, other);
    }
    WithoutSize(t, id);
    Without(t, id) + Insert(id, kv.kvs)
  }

  /** After delete-then-insert, the article's rows are the inserted ones. */
  lemma ReplaceOwnRows(t: Table, id: int, kvs: seq<Instance>)
    ensures InstancesOf(RowsOf(Without(t, id) + Insert(id, kvs), id)) == kvs
  {
    var kept := Without(t, id);
    var added := Insert(id, kvs);
    RowsOfWithout(t, id, id);
    RowsOfAppend(kept, added, id);
    RowsOfOwn(added, id, id);
    assert RowsOf(kept + added, id) == added;
  }

  /** Delete-then-insert for one article leaves another article's rows. */
  lemma ReplaceOtherRows(t: Table, id: int, kvs: seq<Instance>, other: int)
    requires other != id
    ensures RowsOf(Without(t, id) + Insert(id, kvs), other) == RowsOf(t, other)
  {
    var kept := Without(t, id);
    var added := Insert(id, kvs);
    RowsOfWithout(t, id, other);
    RowsOfAppend(kept, added, other);
    RowsOfOwn(added, id, other);
    assert RowsOf(added, other) == [];
  }

  /** Deleting an article removes exactly the rows its selection holds. */
  lemma {:induction false} WithoutSize(t: Table, id: int)
    ensures |Without(t, id)| == |t| - |RowsOf(t, id)|
    decreases |t|
  {
    if |t| > 0 {
      WithoutSize(t[1..], id);
    }
  }

  /** Storing twice with nothing added in between leaves the same table as
      storing once. */
  lemma StoreIdempotent(kv: KeyValue, t: Table)
    ensures Store(kv, Store(kv, t)) == Store(kv, t)
  {
    var id := kv.articleId;
    var kept := Without(t, id);
    var added := Insert(id, kv.kvs);
    var once := Store(kv, t);
    assert once == kept + added;
    WithoutAppend(kept, added, id);
    WithoutAbsent(kept, id);
    RowsOfOwn(added, id, id);
    assert Without(once, id) == kept;
  }

  // ----- queries -------------------------------------------------------

  /** Number of rows whose category is `c`. */
  function CountCategory(t: Table, c: string): nat {
    if |t| == 0 then 0
    else CountCategory(t[..|t| - 1], c) + (if t[|t| - 1].category == c then 1 else 0)
  }

  /** Number of rows that hold exactly the triple `kv`. */
  function Occurrences(t: Table, kv: Instance): nat {
    if |t| == 0 then 0
    else
      var last := t[|t| - 1];
      Occurrences(t[..|t| - 1], kv) + (if Instance(last.category, last.key, last.value) == kv then 1 else 0)
  }

  /** `getByCategory($c)`: one triple per row whose category equals `c`,
      built from the requested category and the row's key and value.  In
      whatever order, each triple of category `c` comes back as many times
      as rows hold it, and no other triple comes back. */
  function ByCategory(t: Table, c: string): (r: seq<Instance>)
    ensures |r| == CountCategory(t, c)
    ensures forall i :: 0 <= i < |r| ==> r[i].category == c
    ensures forall kv :: kv in r <==>
      exists i :: 0 <= i < |t| && t[i].category == c && kv == Instance(c, t[i].key, t[i].value)
    ensures forall kv :: multiset(r)[kv] == (if kv.category == c then Occurrences(t, kv) else 0)
  {
    if |t| == 0 then []
    else
      var init := t[..|t| - 1];
      var last := t[|t| - 1];
      var r := ByCategory(init, c) + (if last.category == c then [Instance(c, last.key, last.value)] else []);
      assert forall i :: 0 <= i < |init| ==> t[i] == init[i];
      r
  }

  /** Position of category `c` in a listing, or `|cs|` when it is absent. */
  function IndexOfCategory(cs: seq<CategoryCount>, c: string): (i: nat)
    ensures i <= |cs|
    ensures i < |cs| ==> cs[i].category == c
    ensures i == |cs| ==> forall j :: 0 <= j < |cs| ==> cs[j].category != c
  {
    if |cs| == 0 then 0
    else if cs[0].category == c then 0
    else 1 + IndexOfCategory(cs[1..], c)
  }

  /** The listing has an entry for category `c`. */
  predicate Lists(cs: seq<CategoryCount>, c: string) {
    exists i | 0 <= i < |cs| :: cs[i].category == c
  }

  /** `cs` is the grouped listing of the rows `t`: distinct categories, each
      with its row count, and every category of `t` present. */
  ghost predicate Grouped(cs: seq<CategoryCount>, t: Table) {
    && (forall i, j :: 0 <= i < j < |cs| ==> cs[i].category != cs[j].category)
    && (forall i :: 0 <= i < |cs| ==> cs[i].count == CountCategory(t, cs[i].category))
    && (forall i :: 0 <= i < |cs| ==> cs[i].count > 0)
    && (forall m :: 0 <= m < |t| ==> Lists(cs, t[m].category))
  }

  /** Counts one more row of category `c` into a listing. */
  function Tally(cs: seq<CategoryCount>, c: string): seq<CategoryCount> {
    var i := IndexOfCategory(cs, c);
    if i < |cs| then cs[i := CategoryCount(c, cs[i].count + 1)]
    else cs + [CategoryCount(c, 1)]
  }

  /** One more row: its category's count goes up by one, the others stay. */
  lemma CountCategorySnoc(t: Table, row: Row, c: string)
    ensures CountCategory(t + [row], c) == CountCategory(t, c) + (if row.category == c then 1 else 0)
  {
    assert (t + [row])[..|t|] == t;
  }

  /** A category the listing does not hold has no rows yet. */
  lemma {:induction false} CountCategoryPrefix(cs: seq<CategoryCount>, t: Table, c: string)
    requires forall m :: 0 <= m < |t| ==> Lists(cs, t[m].category)
    requires !Lists(cs, c)
    ensures CountCategory(t, c) == 0
    decreases |t|
  {
    if |t| > 0 {
      var init := t[..|t| - 1];
      assert forall m :: 0 <= m < |init| ==> init[m] == t[m];
      assert Lists(cs, t[|t| - 1].category);
      CountCategoryPrefix(cs, init, c);
    }
  }

  /** Tallying the next row keeps the listing grouped. */
  lemma TallyStep(cs: seq<CategoryCount>, t: Table, row: Row)
    requires Grouped(cs, t)
    ensures Grouped(Tally(cs, row.category), t + [row])
  {
    TallyCounts(cs, t, row);
    TallyLists(cs, t, row);
  }

  /** Tallying keeps categories distinct and counts exact. */
  lemma TallyCounts(cs: seq<CategoryCount>, t: Table, row: Row)
    requires Grouped(cs, t)
    ensures var r := Tally(cs, row.category);
      && (forall i, j :: 0 <= i < j < |r| ==> r[i].category != r[j].category)
      && (forall i :: 0 <= i < |r| ==> r[i].count == CountCategory(t + [row], r[i].category))
      && (forall i :: 0 <= i < |r| ==> r[i].count > 0)
  {
    var c := row.category;
    var r := Tally(cs, c);
    forall x: string
      ensures CountCategory(t + [row], x) == CountCategory(t, x) + (if c == x then 1 else 0)
    {
      CountCategorySnoc(t, row, x);
    }
    if IndexOfCategory(cs, c) == |cs| {
      assert !Lists(cs, c);
      CountCategoryPrefix(cs, t, c);
    }
  }

  /** Tallying keeps every listed category listed and lists the new one. */
  lemma TallyLists(cs: seq<CategoryCount>, t: Table, row: Row)
    requires forall m :: 0 <= m < |t| ==> Lists(cs, t[m].category)
    ensures forall m :: 0 <= m < |t| + 1 ==> Lists(Tally(cs, row.category), (t + [row])[m].category)
  {
    var c := row.category;
    var r := Tally(cs, c);
    var i := IndexOfCategory(cs, c);
    assert forall j :: 0 <= j < |cs| ==> r[j].category == cs[j].category;
    forall m | 0 <= m < |t| + 1
      ensures Lists(r, (t + [row])[m].category)
    {
      if m == |t| {
        assert r[i].category == c;
      } else {
        var j :| 0 <= j < |cs| && cs[j].category == t[m].category;
        assert r[j].category == t[m].category;
      }
    }
  }

  /** The sum of the counts of a listing. */
  function Total(cs: seq<CategoryCount>): nat {
    if |cs| == 0 then 0 else Total(cs[..|cs| - 1]) + cs[|cs| - 1].count
  }

  /** Replacing one entry changes the sum by the difference of the counts. */
  lemma {:induction false} TotalUpdate(cs: seq<CategoryCount>, i: nat, x: CategoryCount)
    requires i < |cs|
    ensures Total(cs[i := x]) == Total(cs) - cs[i].count + x.count
    decreases |cs|
  {
    var n := |cs| - 1;
    if i == n {
      assert cs[i := x][..n] == cs[..n];
    } else {
      assert cs[i := x][..n] == cs[..n][i := x];
      TotalUpdate(cs[..n], i, x);
    }
  }

  /** Tallying a row adds one to the sum of the counts. */
  lemma TallyTotal(cs: seq<CategoryCount>, c: string)
    ensures Total(Tally(cs, c)) == Total(cs) + 1
  {
    var i := IndexOfCategory(cs, c);
    if i < |cs| {
      TotalUpdate(cs, i, CategoryCount(c, cs[i].count + 1));
    } else {
      assert (cs + [CategoryCount(c, 1)])[..|cs|] == cs;
    }
  }

  /** `getCategories()` (`SELECT kvcategory, count(kvcategory) ... GROUP BY
      kvcategory`): one entry per distinct category, each with that
      category's row count, every category of the table listed, and every
      row counted once.  The model lists categories in order of first
      appearance; the query itself promises no order. */
  function GetCategories(t: Table): (r: seq<CategoryCount>)
    ensures forall i, j :: 0 <= i < j < |r| ==> r[i].category != r[j].category
    ensures forall i :: 0 <= i < |r| ==> r[i].count == CountCategory(t, r[i].category)
    ensures forall i :: 0 <= i < |r| ==> r[i].count > 0
    ensures forall k :: 0 <= k < |t| ==> Lists(r, t[k].category)
    ensures Total(r) == |t|
  {
    if |t| == 0 then []
    else
      var init := t[..|t| - 1];
      var last := t[|t| - 1];
      var listed := GetCategories(init);
      GroupedSnoc(listed, t);
      Tally(listed, last.category)
  }

  /** Tallying the last row of `t` into a listing of the rows before it
      gives a listing of `t` whose counts sum to one more. */
  lemma GroupedSnoc(cs: seq<CategoryCount>, t: Table)
    requires |t| > 0 && Grouped(cs, t[..|t| - 1])
    ensures Grouped(Tally(cs, t[|t| - 1].category), t)
    ensures Total(Tally(cs, t[|t| - 1].category)) == Total(cs) + 1
  {
    var init, last := t[..|t| - 1], t[|t| - 1];
    TallyStep(cs, init, last);
    TallyTotal(cs, last.category);
    assert init + [last] == t;
  }
}
