/** The routing table: a doubly linked list with unique keys that refines a finite map. */
module RoutingTable {
  import opened Common

  // ----- C strings in fixed buffers

  /** strncpy: at most n characters, padded with NUL. */
  function Strncpy(src: CString, n: nat): (buffer: seq<char>)
    ensures |buffer| == n
  {
    seq(n, i requires i >= 0 => if i < |src| then src[i] else NUL)
  }

  /** strncmp(buffer, s, n) == 0, from index i on: character by character, up to n of them or
      the end of both strings. */
  predicate StrncmpIsZero(buffer: seq<char>, s: CString, n: nat, i: nat)
    requires i <= n <= |buffer|
    decreases n - i
  {
    if i == n then true
    else
      var c := if i < |s| then s[i] else NUL;
      if buffer[i] != c then false
      else if c == NUL then true
      else if i >= |s| then false
      else StrncmpIsZero(buffer, s, n, i + 1)
  }

  /** What strncpy writes: after a NUL only NULs. */
  ghost predicate Padded(buffer: seq<char>) {
    forall i, j | 0 <= i < j < |buffer| && buffer[i] == NUL :: buffer[j] == NUL
  }

  lemma {:induction false} StrncmpFrom(buffer: seq<char>, s: CString, i: nat)
    requires Padded(buffer) && i <= |buffer|
    requires i <= |s| && buffer[..i] == s[..i]
    ensures StrncmpIsZero(buffer, s, |buffer|, i) <==> buffer == Strncpy(s, |buffer|)
    decreases |buffer| - i
  {
    var n := |buffer|;
    if i == n {
      assert forall k | 0 <= k < n :: buffer[k] == buffer[..i][k] == s[..i][k];
    } else {
      var c := if i < |s| then s[i] else NUL;
      assert Strncpy(s, n)[i] == c;
      if buffer[i] == c && c == NUL {
        assert i == |s|;
        assert forall k | 0 <= k < i :: buffer[k] == buffer[..i][k] == s[..i][k];
      } else if buffer[i] == c {
        assert buffer[..i + 1] == buffer[..i] + [c] && s[..i + 1] == s[..i] + [c];
        StrncmpFrom(buffer, s, i + 1);
      }
    }
  }

  /** Comparing a stored buffer with a string tells exactly whether storing the string would
      give that buffer: two strings agree when their first n characters do. */
  lemma StrncmpIffCopy(buffer: seq<char>, s: CString)
    requires Padded(buffer)
    ensures StrncmpIsZero(buffer, s, |buffer|, 0) <==> buffer == Strncpy(s, |buffer|)
  {
    StrncmpFrom(buffer, s, 0);
  }

  const DEST := 16
  const GW := 16
  const OIF := 32

  // ----- the table as rows, and as a map

  type Key = (seq<char>, int)

  datatype Route = Route(gw: seq<char>, oif: seq<char>, updated: int)

  datatype Row = Row(key: Key, route: Route)

  ghost function Find(rows: seq<Row>, key: Key): (k: nat)
    ensures k <= |rows|
    ensures forall i | 0 <= i < k :: rows[i].key != key
    ensures k < |rows| ==> rows[k].key == key
  {
    if rows == [] || rows[0].key == key then 0 else 1 + Find(rows[1..], key)
  }

  ghost predicate Unique(rows: seq<Row>) {
    forall i, j | 0 <= i < j < |rows| :: rows[i].key != rows[j].key
  }

  ghost function ToMap(rows: seq<Row>): map<Key, Route> {
    if rows == [] then map[] else ToMap(rows[1..])[rows[0].key := rows[0].route]
  }

  lemma {:induction false} ToMapKeys(rows: seq<Row>)
    ensures forall key :: key in ToMap(rows) <==> Find(rows, key) < |rows|
  {
    if rows != [] {
      ToMapKeys(rows[1..]);
    }
  }

  lemma {:induction false} ToMapUpdate(rows: seq<Row>, k: nat, route: Route)
    requires Unique(rows) && k < |rows|
    ensures rows[k].key in ToMap(rows)
    ensures ToMap(rows[k := Row(rows[k].key, route)]) == ToMap(rows)[rows[k].key := route]
    ensures ToMap(rows)[rows[k].key] == rows[k].route
  {
    var updated := rows[k := Row(rows[k].key, route)];
    if k == 0 {
      assert updated[1..] == rows[1..];
    } else {
      ToMapUpdate(rows[1..], k - 1, route);
      assert updated[1..] == rows[1..][k - 1 := Row(rows[k].key, route)];
      assert rows[0].key != rows[k].key;
    }
  }

  lemma {:induction false} ToMapAbsent(rows: seq<Row>, key: Key)
    requires forall i | 0 <= i < |rows| :: rows[i].key != key
    ensures key !in ToMap(rows)
  {
    if rows != [] { ToMapAbsent(rows[1..], key); }
  }

  lemma {:induction false} ToMapRemove(rows: seq<Row>, k: nat)
    requires Unique(rows) && k < |rows|
    ensures ToMap(rows[..k] + rows[k + 1..]) == ToMap(rows) - {rows[k].key}
  {
    var rest, tail := rows[..k] + rows[k + 1..], rows[1..];
    if k == 0 {
      assert rest == tail;
      ToMapAbsent(tail, rows[0].key);
      assert ToMap(rows) == ToMap(tail)[rows[0].key := rows[0].route];
    } else {
      ToMapRemove(tail, k - 1);
      assert rest == [rows[0]] + (tail[..k - 1] + tail[k..]);
      assert rest[1..] == tail[..k - 1] + tail[k..];
      RemoveLater(ToMap(tail), rows[0].key, rows[0].route, rows[k].key);
    }
  }

  lemma RemoveLater(m: map<Key, Route>, key: Key, route: Route, other: Key)
    requires key != other
    ensures (m - {other})[key := route] == m[key := route] - {other}
  {
  }

  lemma ToMapInsert(rows: seq<Row>, row: Row)
    ensures ToMap([row] + rows) == ToMap(rows)[row.key := row.route]
  {
    assert ([row] + rows)[1..] == rows;
  }

  // ----- the table in the heap

  class Entry {
    var dest: seq<char>
    var mask: int
    var gw: seq<char>
    var oif: seq<char>
    var lastUpdated: int
    var next: Entry?
    var prev: Entry?

    constructor (dest: CString, mask: int, gw: CString, oif: CString, now: int)
      ensures this.dest == Strncpy(dest, DEST) && this.mask == mask
      ensures this.gw == Strncpy(gw, GW) && this.oif == Strncpy(oif, OIF) && lastUpdated == now
      ensures next == null && prev == null
    {
      this.dest := Strncpy(dest, DEST);
      this.mask := mask;
      this.gw := Strncpy(gw, GW);
      this.oif := Strncpy(oif, OIF);
      lastUpdated := now;
      next := null;
      prev := null;
    }
  }

  ghost function RowOf(e: Entry): Row
    reads e
  {
    Row((e.dest, e.mask), Route(e.gw, e.oif, e.lastUpdated))
  }

  ghost function RowsOf(entries: seq<Entry>): (rows: seq<Row>)
    reads entries
    ensures |rows| == |entries|
  {
    seq(|entries|, i requires 0 <= i < |entries| reads entries => RowOf(entries[i]))
  }

  ghost function EntryAt(entries: seq<Entry>, i: int): Entry? {
    if 0 <= i < |entries| then entries[i] else null
  }

  /** Distinct entries, each linked to its neighbours both ways. */
  ghost predicate Linked(entries: seq<Entry>)
    reads entries
  {
    && (forall i {:trigger entries[i].next} | 0 <= i < |entries| :: entries[i].next == EntryAt(entries, i + 1))
    && (forall i {:trigger entries[i].prev} | 0 <= i < |entries| :: entries[i].prev == EntryAt(entries, i - 1))
    && forall i, j | 0 <= i < j < |entries| :: entries[i] != entries[j]
  }

  ghost predicate GoodRow(row: Row) {
    && |row.key.0| == DEST && Padded(row.key.0)
    && |row.route.gw| == GW && Padded(row.route.gw) && |row.route.oif| == OIF && Padded(row.route.oif)
  }

  ghost predicate GoodRows(rows: seq<Row>) {
    Unique(rows) && forall k | 0 <= k < |rows| :: GoodRow(rows[k])
  }

  /** The key under which a destination and mask are stored. */
  function KeyOf(dest: CString, mask: int): Key {
    (Strncpy(dest, DEST), mask)
  }

  class Table {
    var head: Entry?
    ghost var entries: seq<Entry>

    ghost predicate Valid()
      reads this, entries
    {
      head == EntryAt(entries, 0) && Linked(entries) && GoodRows(RowsOf(entries))
    }

    ghost function Rows(): seq<Row>
      reads this, entries
    {
      RowsOf(entries)
    }

    constructor ()
      ensures Valid() && entries == []
    {
      head := null;
      entries := [];
    }

    /** The linear search; the ghost result is the entry's place. */
    method LookUp(dest: CString, mask: int) returns (entry: Entry?, ghost k: nat)
      requires Valid()
      ensures k == Find(Rows(), KeyOf(dest, mask))
      ensures entry == EntryAt(entries, Find(Rows(), KeyOf(dest, mask)))
    {
      entry := head;
      k := 0;
      while entry != null
        invariant k <= |entries| && entry == EntryAt(entries, k)
        invariant forall i | 0 <= i < k :: Rows()[i].key != KeyOf(dest, mask)
        decreases |entries| - k
      {
        assert GoodRow(Rows()[k]) && Rows()[k] == RowOf(entry);
        StrncmpIffCopy(entry.dest, dest);
        if StrncmpIsZero(entry.dest, dest, DEST, 0) && entry.mask == mask {
          FindIs(Rows(), KeyOf(dest, mask), k);
          return;
        }
        assert entries[k].next == EntryAt(entries, k + 1);
        entry := entry.next;
        k := k + 1;
      }
      FindIs(Rows(), KeyOf(dest, mask), k);
    }

    /** Insertion at the head, refused when the key is there. */
    method Insert(dest: CString, mask: int, gw: CString, oif: CString, now: int) returns (rc: int)
      requires Valid()
      modifies this, entries
      ensures Valid()
      ensures rc == if KeyOf(dest, mask) in ToMap(old(Rows())) then -1 else 0
      ensures rc == -1 ==> entries == old(entries) && Rows() == old(Rows())
      ensures rc == 0 ==> fresh(head) && entries == [head] + old(entries)
      ensures rc == 0 ==>
        Rows() == [NewRow(dest, mask, gw, oif, now)] + old(Rows())
    {
      hide GoodRows, GoodRow, ToMap, Find, Strncpy, Padded;
      var entry, k := LookUp(dest, mask);
      ToMapKeys(Rows());
      if entry != null { return -1; }
      entry := new Entry(dest, mask, gw, oif, now);
      ghost var row := RowOf(entry);
      NewRowGood(Rows(), dest, mask, gw, oif, now);
      LinkFirst(entry);
      entries := [entry] + entries;
      assert Rows() == [row] + old(Rows());
      return 0;
    }

    /** The second half of the insertion: the new entry goes to the head. */
    method LinkFirst(entry: Entry)
      requires head == EntryAt(entries, 0) && Linked(entries) && entry !in entries
      requires entry.next == entry.prev == null
      modifies this`head, entry`next, entry`prev, entries`prev
      ensures head == entry && Linked([entry] + entries)
      ensures RowsOf([entry] + entries) == [RowOf(entry)] + old(RowsOf(entries))
      ensures RowOf(entry) == old(RowOf(entry))
    {
      if head == null {
        head := entry;
      } else {
        entry.next := head;
        entry.prev := null;
        head.prev := entry;
        head := entry;
      }
    }

    /** Deletion. An entry that is not the head has a predecessor. */
    method Delete(dest: CString, mask: int) returns (rc: int)
      requires Valid()
      modifies this, entries
      ensures Valid()
      ensures rc == if KeyOf(dest, mask) in ToMap(old(Rows())) then 0 else -1
      ensures rc == -1 ==> entries == old(entries) && Rows() == old(Rows())
      ensures rc == 0 ==>
        var k := Find(old(Rows()), KeyOf(dest, mask));
        && k < |old(entries)| && entries == old(entries)[..k] + old(entries)[k + 1..]
        && Rows() == old(Rows())[..k] + old(Rows())[k + 1..]
    {
      hide GoodRows, GoodRow, ToMap, Find, Strncpy, Padded, Linked, RowOf;
      var entry, k := LookUp(dest, mask);
      ToMapKeys(Rows());
      if entry == null { return -1; }
      RowRemovedGood(Rows(), k);
      Unlink(entry, k);
      RemoveEntry(k);
      return 0;
    }

    /** The second half of the deletion: the entry found leaves the list. */
    method Unlink(entry: Entry, ghost k: nat)
      requires head == EntryAt(entries, 0) && Linked(entries) && k < |entries| && entry == entries[k]
      modifies this`head, entries`next, entries`prev
      ensures head == EntryAt(entries[..k] + entries[k + 1..], 0)
      ensures Linked(entries[..k] + entries[k + 1..])
      ensures RowsOf(entries) == old(RowsOf(entries))
    {
      assert entry.next == entries[k].next == EntryAt(entries, k + 1);
      assert entry.prev == entries[k].prev;
      hide RowOf;
      if head == entry {
        head := entry.next;
        if head != null { head.prev := null; }
      } else if entry.prev == null {
        assert false;
      } else if entry.next == null {
        entry.prev.next := null;
        entry.prev := null;
      } else {
        entry.prev.next := entry.next;
        entry.next.prev := entry.prev;
        entry.prev := null;
        entry.next := null;
      }
      RemovedLinked(entries, k);
    }

    /** Bookkeeping: the entry leaves the ghost sequence. */
    ghost method RemoveEntry(k: nat)
      requires k < |entries|
      modifies this`entries
      ensures entries == old(entries)[..k] + old(entries)[k + 1..]
      ensures RowsOf(entries) == RowsOf(old(entries))[..k] + RowsOf(old(entries))[k + 1..]
    {
      entries := entries[..k] + entries[k + 1..];
    }

    /** Update of an existing entry, refused when nothing would change. */
    method Update(dest: CString, mask: int, newGw: CString, newOif: CString, now: int) returns (rc: int)
      requires Valid()
      modifies this, entries
      ensures Valid() && entries == old(entries)
      ensures
        var k := Find(old(Rows()), KeyOf(dest, mask));
        var row := NewRow(dest, mask, newGw, newOif, now);
        if k == |old(Rows())| || (old(Rows())[k].route.gw == row.route.gw && old(Rows())[k].route.oif == row.route.oif)
        then rc == -1 && Rows() == old(Rows())
        else rc == 0 && Rows() == old(Rows())[k := row]
    {
      hide GoodRows, GoodRow, ToMap, Find, Strncpy, Padded, StrncmpIsZero;
      var entry, k := LookUp(dest, mask);
      if entry == null { return -1; }
      ghost var before := Rows();
      assert before[k] == RowOf(entry);
      FoundRow(before, KeyOf(dest, mask), k);
      CompareRow(before[k], dest, newGw, newOif);
      if StrncmpIsZero(entry.dest, dest, DEST, 0) && entry.mask == mask &&
         StrncmpIsZero(entry.gw, newGw, GW, 0) && StrncmpIsZero(entry.oif, newOif, OIF, 0)
      {
        return -1;
      }
      RowReplacedGood(before, k, dest, mask, newGw, newOif, now);
      Overwrite(entry, k, dest, mask, newGw, newOif, now);
      return 0;
    }

    /** The second half of the update: the entry found is written over. */
    method Overwrite(entry: Entry, ghost k: nat, dest: CString, mask: int, gw: CString, oif: CString, now: int)
      requires Linked(entries) && k < |entries| && entry == entries[k]
      modifies entry`dest, entry`mask, entry`gw, entry`oif, entry`lastUpdated
      ensures RowsOf(entries) == old(RowsOf(entries))[k := NewRow(dest, mask, gw, oif, now)]
      ensures Linked(entries)
    {
      hide Strncpy;
      entry.dest := Strncpy(dest, DEST);
      entry.mask := mask;
      entry.gw := Strncpy(gw, GW);
      entry.oif := Strncpy(oif, OIF);
      entry.lastUpdated := now;
    }
  }

  /** The neighbours of a removed entry point past it, the others where they did. */
  lemma RemovedLinked(entries: seq<Entry>, k: nat)
    requires k < |entries| && forall i, j | 0 <= i < j < |entries| :: entries[i] != entries[j]
    requires forall i {:trigger entries[i].next} | 0 <= i < |entries| && i != k ::
      entries[i].next == EntryAt(entries, if i + 1 == k then k + 1 else i + 1)
    requires forall i {:trigger entries[i].prev} | 0 <= i < |entries| && i != k ::
      entries[i].prev == EntryAt(entries, if i == k + 1 then i - 2 else i - 1)
    ensures Linked(entries[..k] + entries[k + 1..])
  {
    var rest := entries[..k] + entries[k + 1..];
    forall i {:trigger rest[i].next} | 0 <= i < |rest|
      ensures rest[i].next == EntryAt(rest, i + 1) && rest[i].prev == EntryAt(rest, i - 1)
    {
      assert rest[i] == entries[if i < k then i else i + 1];
    }
  }

  lemma RowRemovedGood(rows: seq<Row>, k: nat)
    requires GoodRows(rows) && k < |rows|
    ensures GoodRows(rows[..k] + rows[k + 1..])
  {
  }

  lemma FoundRow(rows: seq<Row>, key: Key, k: nat)
    requires GoodRows(rows) && k == Find(rows, key) < |rows|
    ensures rows[k].key == key && GoodRow(rows[k])
  {
  }

  lemma CompareRow(row: Row, dest: CString, gw: CString, oif: CString)
    requires GoodRow(row)
    ensures StrncmpIsZero(row.key.0, dest, DEST, 0) <==> row.key.0 == Strncpy(dest, DEST)
    ensures StrncmpIsZero(row.route.gw, gw, GW, 0) <==> row.route.gw == Strncpy(gw, GW)
    ensures StrncmpIsZero(row.route.oif, oif, OIF, 0) <==> row.route.oif == Strncpy(oif, OIF)
  {
    StrncmpIffCopy(row.key.0, dest);
    StrncmpIffCopy(row.route.gw, gw);
    StrncmpIffCopy(row.route.oif, oif);
  }

  lemma RowReplacedGood(rows: seq<Row>, k: nat, dest: CString, mask: int, gw: CString, oif: CString, now: int)
    requires GoodRows(rows) && k < |rows| && rows[k].key == KeyOf(dest, mask)
    ensures GoodRows(rows[k := NewRow(dest, mask, gw, oif, now)])
  {
    assert GoodRow(NewRow(dest, mask, gw, oif, now));
  }

  lemma {:induction false} FindIs(rows: seq<Row>, key: Key, k: nat)
    requires k <= |rows| && (forall i | 0 <= i < k :: rows[i].key != key)
    requires k < |rows| ==> rows[k].key == key
    ensures Find(rows, key) == k
  {
    if rows != [] && rows[0].key != key { FindIs(rows[1..], key, k - 1); }
  }

  function NewRow(dest: CString, mask: int, gw: CString, oif: CString, now: int): Row {
    Row(KeyOf(dest, mask), Route(Strncpy(gw, GW), Strncpy(oif, OIF), now))
  }

  lemma NewRowGood(rows: seq<Row>, dest: CString, mask: int, gw: CString, oif: CString, now: int)
    requires GoodRows(rows) && Find(rows, KeyOf(dest, mask)) == |rows|
    ensures GoodRows([NewRow(dest, mask, gw, oif, now)] + rows)
  {
    assert GoodRow(NewRow(dest, mask, gw, oif, now));
  }

  lemma BufferEnds(s: CString, n: nat, i: nat)
    requires i < n
    ensures Strncpy(s, n)[i] == NUL <==> |s| <= i
  {
    if i < |s| { assert s[i] in s; }
  }

  /** Two strings leave the same buffer of n characters exactly when they are equal or agree in as
      many characters as the buffer has. */
  lemma SameBufferIff(a: CString, b: CString, n: nat)
    ensures Strncpy(a, n) == Strncpy(b, n) <==> a == b || (n <= |a| && n <= |b| && a[..n] == b[..n])
  {
    var x, y := Strncpy(a, n), Strncpy(b, n);
    if x == y {
      if |a| < n { BufferEnds(a, n, |a|); BufferEnds(b, n, |a|); }
      if |b| < n { BufferEnds(a, n, |b|); BufferEnds(b, n, |b|); }
      forall i | 0 <= i < n && i < |a| && i < |b|
        ensures a[i] == b[i]
      {
        assert a[i] == x[i] == y[i] == b[i];
      }
    } else {
      var i :| 0 <= i < n && x[i] != y[i];
      assert n <= |a| && n <= |b| ==> a[..n][i] != b[..n][i];
    }
  }

  /** Two destinations shorter than 16 characters have one key exactly when they are equal, with
      equal masks; of longer ones the first 16 characters count. */
  lemma SameKeyIff(a: CString, b: CString, m: int, n: int)
    ensures KeyOf(a, m) == KeyOf(b, n) <==>
      m == n && (a == b || (16 <= |a| && 16 <= |b| && a[..16] == b[..16]))
  {
    SameBufferIff(a, b, DEST);
  }

  /** A route stands for a gateway of up to 16 characters and an interface of up to 32. */
  lemma SameRouteIff(gw: CString, oif: CString, now: int, gw': CString, oif': CString, now': int)
    ensures RouteOf(gw, oif, now) == RouteOf(gw', oif', now') <==>
      && now == now' && (gw == gw' || (16 <= |gw| && 16 <= |gw'| && gw[..16] == gw'[..16]))
      && (oif == oif' || (32 <= |oif| && 32 <= |oif'| && oif[..32] == oif'[..32]))
  {
    SameBufferIff(gw, gw', GW);
    SameBufferIff(oif, oif', OIF);
  }

  // ----- every run refines a finite map, return codes included

  datatype Op =
    | Insert(dest: CString, mask: int, gw: CString, oif: CString, now: int)
    | Delete(dest: CString, mask: int)
    | Update(dest: CString, mask: int, gw: CString, oif: CString, now: int)

  function RouteOf(gw: CString, oif: CString, now: int): Route {
    Route(Strncpy(gw, GW), Strncpy(oif, OIF), now)
  }

  /** The operation on the map, with its return code. */
  function Apply(m: map<Key, Route>, op: Op): (map<Key, Route>, int) {
    var key := KeyOf(op.dest, op.mask);
    match op
    case Insert(_, _, gw, oif, now) =>
      if key in m then (m, -1) else (m[key := RouteOf(gw, oif, now)], 0)
    case Delete(_, _) =>
      if key in m then (m - {key}, 0) else (m, -1)
    case Update(_, _, gw, oif, now) =>
      if key !in m || (m[key].gw == Strncpy(gw, GW) && m[key].oif == Strncpy(oif, OIF)) then (m, -1)
      else (m[key := RouteOf(gw, oif, now)], 0)
  }

  function RunMap(ops: seq<Op>): (map<Key, Route>, seq<int>) {
    if ops == [] then (map[], [])
    else
      var (m, codes) := RunMap(ops[..|ops| - 1]);
      var (m', rc) := Apply(m, ops[|ops| - 1]);
      (m', codes + [rc])
  }

  lemma DeleteRefines(rows: seq<Row>, key: Key)
    requires Unique(rows)
    ensures Find(rows, key) < |rows| <==> key in ToMap(rows)
    ensures
      var k := Find(rows, key);
      k < |rows| ==> ToMap(rows[..k] + rows[k + 1..]) == ToMap(rows) - {key}
  {
    hide Find, ToMap;
    ToMapKeys(rows);
    var k := Find(rows, key);
    if k < |rows| { ToMapRemove(rows, k); }
  }

  lemma UpdateRefines(rows: seq<Row>, row: Row)
    requires Unique(rows)
    ensures
      var k := Find(rows, row.key);
      (k < |rows| <==> row.key in ToMap(rows)) &&
      (k < |rows| ==>
         ToMap(rows)[row.key] == rows[k].route && ToMap(rows[k := row]) == ToMap(rows)[row.key := row.route])
  {
    hide Find, ToMap;
    ToMapKeys(rows);
    var k := Find(rows, row.key);
    if k < |rows| {
      ToMapUpdate(rows, k, row.route);
      assert row == Row(rows[k].key, row.route);
    }
  }

  /** One call on the table is one operation on the map. */
  method Perform(table: Table, op: Op) returns (rc: int)
    requires table.Valid()
    modifies table, table.entries
    ensures table.Valid() && fresh((set e | e in table.entries) - old(set e | e in table.entries))
    ensures (ToMap(table.Rows()), rc) == Apply(old(ToMap(table.Rows())), op)
  {
    hide Find, ToMap, Strncpy;
    ghost var rows := table.Rows();
    match op
    case Insert(dest, mask, gw, oif, now) =>
      rc := table.Insert(dest, mask, gw, oif, now);
      ToMapInsert(rows, NewRow(dest, mask, gw, oif, now));
    case Delete(dest, mask) =>
      rc := table.Delete(dest, mask);
      DeleteRefines(rows, KeyOf(dest, mask));
    case Update(dest, mask, gw, oif, now) =>
      rc := table.Update(dest, mask, gw, oif, now);
      UpdateRefines(rows, NewRow(dest, mask, gw, oif, now));
  }

  method Run(ops: seq<Op>) returns (table: Table, codes: seq<int>)
    ensures fresh(table) && table.Valid()
    ensures (ToMap(table.Rows()), codes) == RunMap(ops)
  {
    table := new Table();
    codes := [];
    for i := 0 to |ops|
      invariant table.Valid() && fresh(table) && fresh(set e | e in table.entries)
      invariant (ToMap(table.Rows()), codes) == RunMap(ops[..i])
    {
      var rc := Perform(table, ops[i]);
      codes := codes + [rc];
      assert ops[..i + 1][..i] == ops[..i];
    }
    assert ops[..|ops|] == ops;
  }
}
