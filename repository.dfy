/** The data-access layer of internal/repository/db-cake.go, run against an
    in-memory cakes table instead of MySQL. Each method does what its prepared
    SQL statement does to the table; a store fault is a parameter: when it is
    Some(text), the statement fails with that error text and the table is left
    as it was. */
module Repository {
  import opened Wrappers
  import opened CakeModel

  // ----- the ORDER BY clause: rating DESC, title ASC -----

  /** The title order: lexicographic by character code, standing in for the
      collation of the title column. */
  predicate TitleLeq(a: string, b: string)
    decreases |a|
  {
    a == [] || (b != [] && (a[0] < b[0] || (a[0] == b[0] && TitleLeq(a[1..], b[1..]))))
  }

  lemma {:induction false} TitleLeqTotal(a: string, b: string)
    ensures TitleLeq(a, b) || TitleLeq(b, a)
    decreases |a|
  {
    if a != [] && b != [] && a[0] == b[0] {
      TitleLeqTotal(a[1..], b[1..]);
    }
  }

  lemma {:induction false} TitleLeqTransitive(a: string, b: string, c: string)
    requires TitleLeq(a, b) && TitleLeq(b, c)
    ensures TitleLeq(a, c)
    decreases |a|
  {
    if a != [] && b != [] && c != [] && a[0] == b[0] == c[0] {
      TitleLeqTransitive(a[1..], b[1..], c[1..]);
    }
  }

  /** `a` may be listed before `b`: a higher rating, or the same rating and a
      title that is not greater. */
  predicate ListedBefore(a: Cake, b: Cake) {
    a.rating > b.rating || (a.rating == b.rating && TitleLeq(a.title, b.title))
  }

  /** Any two rows can be ordered, and the order is transitive. */
  lemma ListedBeforeTotal(a: Cake, b: Cake)
    ensures ListedBefore(a, b) || ListedBefore(b, a)
  {
    TitleLeqTotal(a.title, b.title);
  }

  lemma ListedBeforeTransitive(a: Cake, b: Cake, c: Cake)
    requires ListedBefore(a, b) && ListedBefore(b, c)
    ensures ListedBefore(a, c)
  {
    if a.rating == b.rating == c.rating {
      TitleLeqTransitive(a.title, b.title, c.title);
    }
  }

  /** Rows in the order of `ORDER BY rating DESC, title ASC`; rows that tie
      on both keys may come in either order. */
  ghost predicate SortedForListing(s: seq<Cake>) {
    forall i, j :: 0 <= i < j < |s| ==> ListedBefore(s[i], s[j])
  }

  /** Places `c` into an ordered sequence, before the first row it may precede. */
  function InsertForListing(c: Cake, s: seq<Cake>): (r: seq<Cake>)
    requires SortedForListing(s)
    ensures SortedForListing(r)
    ensures multiset(r) == multiset(s) + multiset{c}
    ensures |r| == |s| + 1
  {
    if s == [] then [c]
    else if ListedBefore(c, s[0]) then
      CanPrecedeAll(c, s);
      [c] + s
    else
      var rest := InsertForListing(c, s[1..]);
      ListedBeforeTotal(c, s[0]);
      HeadPrecedesInserted(s, c, rest);
      assert s == [s[0]] + s[1..];
      [s[0]] + rest
  }

  /** A row that may precede the head of an ordered sequence may precede it all. */
  lemma CanPrecedeAll(c: Cake, s: seq<Cake>)
    requires SortedForListing(s) && s != [] && ListedBefore(c, s[0])
    ensures SortedForListing([c] + s)
  {
    forall j | 0 <= j < |s|
      ensures ListedBefore(c, s[j])
    {
      if j > 0 {
        ListedBeforeTransitive(c, s[0], s[j]);
      }
    }
  }

  /** The head of an ordered sequence may precede every row of the tail with
      `c` inserted, when it may precede `c`. */
  lemma HeadPrecedesInserted(s: seq<Cake>, c: Cake, rest: seq<Cake>)
    requires SortedForListing(s) && s != [] && ListedBefore(s[0], c)
    requires SortedForListing(rest) && multiset(rest) == multiset(s[1..]) + multiset{c}
    ensures SortedForListing([s[0]] + rest)
  {
    forall j | 0 <= j < |rest|
      ensures ListedBefore(s[0], rest[j])
    {
      var x := rest[j];
      assert x in multiset(rest);
      if x != c {
        assert x in multiset(s[1..]);
        var k :| 0 <= k < |s[1..]| && s[1..][k] == x;
        assert s[k + 1] == x;
      }
    }
  }

  /** The rows of `s` in listing order: an insertion sort, so rows that tie
      keep their relative order. */
  function SortForListing(s: seq<Cake>): (r: seq<Cake>)
    ensures SortedForListing(r)
    ensures multiset(r) == multiset(s)
    ensures |r| == |s|
  {
    if s == [] then []
    else
      assert s == [s[0]] + s[1..];
      InsertForListing(s[0], SortForListing(s[1..]))
  }

  // ----- the WHERE clauses -----

  /** The rows whose deleted_at is NULL, in table order. */
  function Visible(rows: seq<Cake>): (v: seq<Cake>)
    ensures |v| <= |rows|
    ensures forall c :: c in v <==> c in rows && c.deletedAt.None?
  {
    if rows == [] then []
    else
      var last := rows[|rows| - 1];
      assert rows == rows[..|rows| - 1] + [last];
      Visible(rows[..|rows| - 1]) + (if last.deletedAt.None? then [last] else [])
  }

  /** The filter keeps every live row as often as the table holds it, and
      no soft-deleted row; so |Visible(rows)| is the number of live rows. */
  lemma {:induction false} VisibleCounts(rows: seq<Cake>)
    ensures forall c :: multiset(Visible(rows))[c] == if c.deletedAt.None? then multiset(rows)[c] else 0
  {
    if rows != [] {
      var prefix, last := rows[..|rows| - 1], rows[|rows| - 1];
      assert rows == prefix + [last];
      VisibleCounts(prefix);
    }
  }

  /** Extending the scanned prefix by one row adds one live row, or none. */
  lemma VisibleExtended(rows: seq<Cake>, i: nat)
    requires i < |rows|
    ensures |Visible(rows[..i + 1])| == |Visible(rows[..i])| + if rows[i].deletedAt.None? then 1 else 0
  {
    assert rows[..i + 1][..i] == rows[..i];
  }

  /** The row `WHERE deleted_at IS NULL AND id = ? LIMIT 1` finds, if any. */
  function FindVisible(rows: seq<Cake>, id: int): (r: Option<Cake>)
    ensures r.Some? ==> r.value in rows && r.value.id == id && r.value.deletedAt.None?
  {
    if rows == [] then None
    else if rows[0].id == id && rows[0].deletedAt.None? then Some(rows[0])
    else FindVisible(rows[1..], id)
  }

  /** The lookup finds nothing exactly when no live row has the id. */
  lemma {:induction false} FindVisibleNone(rows: seq<Cake>, id: int)
    ensures FindVisible(rows, id).None? <==> forall c :: c in rows ==> c.id != id || c.deletedAt.Some?
  {
    if rows != [] {
      FindVisibleNone(rows[1..], id);
      assert forall c :: c in rows ==> c == rows[0] || c in rows[1..];
    }
  }

  /** The rows of the listing, before LIMIT and OFFSET. */
  function Listing(rows: seq<Cake>): (s: seq<Cake>)
    ensures SortedForListing(s)
    ensures multiset(s) == multiset(Visible(rows))
  {
    SortForListing(Visible(rows))
  }

  /** `LIMIT limit OFFSET offset`: skip `offset` rows, then take at most `limit`. */
  function Window(s: seq<Cake>, limit: nat, offset: nat): (w: seq<Cake>)
    ensures |w| == if offset >= |s| then 0 else if limit < |s| - offset then limit else |s| - offset
    ensures forall i :: 0 <= i < |w| ==> w[i] == s[offset + i]
  {
    if offset >= |s| then []
    else if limit < |s| - offset then s[offset..offset + limit]
    else s[offset..]
  }

  /** A page of the listing holds only live rows of the table, in listing
      order, and holds every live row when it starts at 0 and is long enough. */
  lemma {:induction false} ListingWindowSound(rows: seq<Cake>, limit: nat, offset: nat)
    ensures SortedForListing(Window(Listing(rows), limit, offset))
    ensures forall c :: c in Window(Listing(rows), limit, offset) ==> c in rows && c.deletedAt.None?
    ensures offset == 0 && limit >= |Visible(rows)| ==>
      multiset(Window(Listing(rows), limit, offset)) == multiset(Visible(rows))
  {
    var s := Listing(rows);
    var w := Window(s, limit, offset);
    forall c | c in w
      ensures c in rows && c.deletedAt.None?
    {
      var i :| 0 <= i < |w| && w[i] == c;
      assert s[offset + i] == c;
      assert c in multiset(s);
      assert c in multiset(Visible(rows));
    }
    if offset == 0 && limit >= |Visible(rows)| {
      assert w == s;
    }
  }

  /** The window is the slice between the clamped offset and the clamped end. */
  lemma WindowIsSlice(s: seq<Cake>, limit: nat, offset: nat)
    ensures var first := if offset < |s| then offset else |s|;
            var stop := if limit < |s| - first then first + limit else |s|;
            Window(s, limit, offset) == s[first..stop]
  {
  }

  // ----- the UPDATE statements -----

  /** The row an INSERT adds: the payload's columns, both timestamps equal to
      the statement's time, deleted_at NULL, and the next auto-increment id. */
  function NewRow(id: int, p: CakePayloadQuery, now: Timestamp): (c: Cake)
    ensures c.id == id && c.deletedAt.None? && c.createdAt == c.updatedAt == now
    ensures c.title == p.title && c.description == p.description && c.rating == p.rating && c.image == p.image
  {
    Cake(id, p.title, p.description, p.rating, p.image, now, now, None)
  }

  /** `UPDATE ... SET title, description, rating, image, updated_at WHERE id = ?`:
      the matched rows take the payload's columns and the new updated_at;
      id, created_at and deleted_at, and every other row, stay as they were. */
  function UpdatedRows(rows: seq<Cake>, id: int, p: CakePayloadQuery, now: Timestamp): (r: seq<Cake>)
    ensures |r| == |rows|
    ensures forall k :: 0 <= k < |rows| && rows[k].id != id ==> r[k] == rows[k]
    ensures forall k :: 0 <= k < |rows| && rows[k].id == id ==>
      r[k] == Cake(id, p.title, p.description, p.rating, p.image, rows[k].createdAt, now, rows[k].deletedAt)
  {
    seq(|rows|, k requires 0 <= k < |rows| =>
      if rows[k].id == id
      then rows[k].(title := p.title, description := p.description, rating := p.rating,
                    image := p.image, updatedAt := now)
      else rows[k])
  }

  /** `UPDATE ... SET deleted_at = ? WHERE id = ?`: the matched rows get the
      deletion time (already deleted ones too); nothing else changes. */
  function SoftDeletedRows(rows: seq<Cake>, id: int, now: Timestamp): (r: seq<Cake>)
    ensures |r| == |rows|
    ensures forall k :: 0 <= k < |rows| && rows[k].id != id ==> r[k] == rows[k]
    ensures forall k :: 0 <= k < |rows| && rows[k].id == id ==> r[k] == rows[k].(deletedAt := Some(now))
  {
    seq(|rows|, k requires 0 <= k < |rows| =>
      if rows[k].id == id then rows[k].(deletedAt := Some(now)) else rows[k])
  }

  /** Every id is below `bound`. */
  ghost predicate IdsBelow(rows: seq<Cake>, bound: int) {
    forall k :: 0 <= k < |rows| ==> rows[k].id < bound
  }

  /** After an insert, the lookup by the new id finds exactly the inserted row. */
  lemma {:induction false} FindInserted(rows: seq<Cake>, id: int, p: CakePayloadQuery, now: Timestamp)
    requires IdsBelow(rows, id)
    ensures FindVisible(rows + [NewRow(id, p, now)], id) == Some(NewRow(id, p, now))
  {
    if rows != [] {
      assert (rows + [NewRow(id, p, now)])[1..] == rows[1..] + [NewRow(id, p, now)];
      FindInserted(rows[1..], id, p, now);
    }
  }

  /** After an update, the lookup by that id finds the updated row: the
      payload's columns and the new updated_at; a missing or soft-deleted id
      stays missing. */
  lemma {:induction false} FindUpdated(rows: seq<Cake>, id: int, p: CakePayloadQuery, now: Timestamp)
    ensures FindVisible(UpdatedRows(rows, id, p, now), id) ==
      match FindVisible(rows, id)
      case None => None
      case Some(c) => Some(Cake(id, p.title, p.description, p.rating, p.image, c.createdAt, now, None))
  {
    if rows != [] {
      assert UpdatedRows(rows, id, p, now)[1..] == UpdatedRows(rows[1..], id, p, now);
      FindUpdated(rows[1..], id, p, now);
    }
  }

  /** After a soft delete, the lookup by that id finds nothing. */
  lemma {:induction false} FindSoftDeleted(rows: seq<Cake>, id: int, now: Timestamp)
    ensures FindVisible(SoftDeletedRows(rows, id, now), id) == None
  {
    if rows != [] {
      assert SoftDeletedRows(rows, id, now)[1..] == SoftDeletedRows(rows[1..], id, now);
      FindSoftDeleted(rows[1..], id, now);
    }
  }

  /** Updating or soft-deleting one id does not change what the lookup of any
      other id finds. */
  lemma {:induction false} FindOtherIdUnaffected(rows: seq<Cake>, id: int, other: int, p: CakePayloadQuery, now: Timestamp)
    requires other != id
    ensures FindVisible(UpdatedRows(rows, id, p, now), other) == FindVisible(rows, other)
    ensures FindVisible(SoftDeletedRows(rows, id, now), other) == FindVisible(rows, other)
  {
    if rows != [] {
      assert UpdatedRows(rows, id, p, now)[1..] == UpdatedRows(rows[1..], id, p, now);
      assert SoftDeletedRows(rows, id, now)[1..] == SoftDeletedRows(rows[1..], id, now);
      FindOtherIdUnaffected(rows[1..], id, other, p, now);
    }
  }

  /** Reads the rows of a window one by one, as the result cursor delivers them. */
  method ReadWindow(ordered: seq<Cake>, limit: nat, offset: nat) returns (cakes: seq<Cake>)
    ensures cakes == Window(ordered, limit, offset)
  {
    var first := if offset < |ordered| then offset else |ordered|;
    var stop := if limit < |ordered| - first then first + limit else |ordered|;
    cakes := [];
    var i := first;
    while i < stop
      invariant first <= i <= stop
      invariant cakes == ordered[first..i]
    {
      assert ordered[first..i + 1] == ordered[first..i] + [ordered[i]];
      cakes := cakes + [ordered[i]];
      i := i + 1;
    }
    WindowIsSlice(ordered, limit, offset);
  }

  /** The error the store reports for a negative LIMIT or OFFSET argument. */
  const NegativeLimitError: string := "Incorrect arguments to LIMIT"

  /** CakeDBRepository. The prepared statements are not modelled; the table
      they run against is: its rows and its auto-increment counter. */
  class CakeDBRepository {
    var rows: seq<Cake>
    var nextId: int

    /** The primary key: ids are positive, increase along the table and stay
        below the auto-increment counter. */
    ghost predicate Valid()
      reads this
    {
      && 1 <= nextId
      && IdsBelow(rows, nextId)
      && (forall k :: 0 <= k < |rows| ==> 1 <= rows[k].id)
      && (forall i, j :: 0 <= i < j < |rows| ==> rows[i].id < rows[j].id)
    }

    /** An empty table. */
    constructor ()
      ensures Valid() && rows == [] && nextId == 1
    {
      rows, nextId := [], 1;
    }

    /** GetCakes: the page of live rows in listing order that skips `offset`
        rows and takes at most `limit`. On a fault (or a negative argument,
        which the store rejects) it returns no rows and the error. */
    method GetCakes(param: GetCakesQuery, fault: Option<string>) returns (cakes: seq<Cake>, err: Option<string>)
      ensures fault.Some? ==> cakes == [] && err == fault
      ensures fault.None? && (param.limit < 0 || param.offset < 0) ==> cakes == [] && err == Some(NegativeLimitError)
      ensures fault.None? && 0 <= param.limit && 0 <= param.offset ==>
        err.None? && cakes == Window(Listing(rows), param.limit, param.offset)
    {
      if fault.Some? {
        return [], fault;
      }
      if param.limit < 0 || param.offset < 0 {
        return [], Some(NegativeLimitError);
      }
      cakes := ReadWindow(Listing(rows), param.limit, param.offset);
      return cakes, None;
    }

    /** CountCakes: the number of live rows; 0 and the error on a fault. */
    method CountCakes(fault: Option<string>) returns (count: int, err: Option<string>)
      ensures fault.Some? ==> count == 0 && err == fault
      ensures fault.None? ==> err.None? && count == |Visible(rows)|
    {
      if fault.Some? {
        return 0, fault;
      }
      count := 0;
      var i := 0;
      while i < |rows|
        invariant 0 <= i <= |rows|
        invariant count == |Visible(rows[..i])|
      {
        VisibleExtended(rows, i);
        if rows[i].deletedAt.None? {
          count := count + 1;
        }
        i := i + 1;
      }
      assert rows[..i] == rows;
      err := None;
    }

    /** GetCake: the live row with that id, or None with no error when there
        is none (missing or soft-deleted); None and the error on a fault. */
    method GetCake(id: int, fault: Option<string>) returns (cake: Option<Cake>, err: Option<string>)
      ensures fault.Some? ==> cake.None? && err == fault
      ensures fault.None? ==> err.None? && cake == FindVisible(rows, id)
    {
      if fault.Some? {
        return None, fault;
      }
      var i := 0;
      while i < |rows|
        invariant 0 <= i <= |rows|
        invariant FindVisible(rows[i..], id) == FindVisible(rows, id)
      {
        if rows[i].id == id && rows[i].deletedAt.None? {
          return Some(rows[i]), None;
        }
        assert rows[i..][1..] == rows[i + 1..];
        i := i + 1;
      }
      return None, None;
    }

    /** InsertCake: appends the new row under the next auto-increment id. */
    method InsertCake(param: CakePayloadQuery, now: Timestamp, fault: Option<string>) returns (err: Option<string>)
      requires Valid()
      modifies this
      ensures Valid()
      ensures err == fault
      ensures fault.Some? ==> rows == old(rows) && nextId == old(nextId)
      ensures fault.None? ==> rows == old(rows) + [NewRow(old(nextId), param, now)] && nextId == old(nextId) + 1
      ensures fault.None? ==> FindVisible(rows, old(nextId)) == Some(NewRow(old(nextId), param, now))
    {
      if fault.Some? {
        return fault;
      }
      FindInserted(rows, nextId, param, now);
      rows := rows + [NewRow(nextId, param, now)];
      nextId := nextId + 1;
      return None;
    }

    /** UpdateCake: rewrites every row with that id, soft-deleted or not;
        a missing id is not an error. */
    method UpdateCake(id: int, param: CakePayloadQuery, now: Timestamp, fault: Option<string>) returns (err: Option<string>)
      requires Valid()
      modifies this`rows
      ensures Valid()
      ensures err == fault
      ensures fault.Some? ==> rows == old(rows)
      ensures fault.None? ==> rows == UpdatedRows(old(rows), id, param, now)
    {
      if fault.Some? {
        return fault;
      }
      var i := 0;
      while i < |rows|
        invariant 0 <= i <= |rows| == |old(rows)|
        invariant forall k :: 0 <= k < i ==> rows[k] == UpdatedRows(old(rows), id, param, now)[k]
        invariant forall k :: i <= k < |rows| ==> rows[k] == old(rows)[k]
      {
        if rows[i].id == id {
          rows := rows[i := rows[i].(title := param.title, description := param.description,
                                     rating := param.rating, image := param.image, updatedAt := now)];
        }
        i := i + 1;
      }
      return None;
    }

    /** SoftDeleteCake: stamps deleted_at on every row with that id; the row
        stays in the table and no other column changes. */
    method SoftDeleteCake(id: int, now: Timestamp, fault: Option<string>) returns (err: Option<string>)
      requires Valid()
      modifies this`rows
      ensures Valid()
      ensures err == fault
      ensures fault.Some? ==> rows == old(rows)
      ensures fault.None? ==> rows == SoftDeletedRows(old(rows), id, now)
    {
      if fault.Some? {
        return fault;
      }
      var i := 0;
      while i < |rows|
        invariant 0 <= i <= |rows| == |old(rows)|
        invariant forall k :: 0 <= k < i ==> rows[k] == SoftDeletedRows(old(rows), id, now)[k]
        invariant forall k :: i <= k < |rows| ==> rows[k] == old(rows)[k]
      {
        if rows[i].id == id {
          rows := rows[i := rows[i].(deletedAt := Some(now))];
        }
        i := i + 1;
      }
      return None;
    }
  }
}
