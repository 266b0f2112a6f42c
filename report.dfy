/** What the run hands back (gitlab-contributors.ts:87-107, 125): the
    contributor entries in the order `Array.prototype.sort` puts them, and the
    breakdown table of touched extensions per author. */
module Report {
  import opened Common
  import opened Shapes
  import opened Identity
  import opened Aggregation

  // ---------------------------------------------------------------------------
  // The order of the returned map

  /** JavaScript `a < b` on strings: elements compared one by one, a proper
      prefix before the longer string. */
  predicate Below(a: string, b: string)
    decreases |a|
  {
    if a == [] then b != []
    else b != [] && (a[0] < b[0] || (a[0] == b[0] && Below(a[1..], b[1..])))
  }

  lemma {:induction false} BelowIrreflexive(a: string)
    ensures !Below(a, a)
    decreases |a|
  {
    if a != [] {
      BelowIrreflexive(a[1..]);
    }
  }

  lemma {:induction false} BelowTransitive(a: string, b: string, c: string)
    requires Below(a, b) && Below(b, c)
    ensures Below(a, c)
    decreases |a|
  {
    if a != [] && a[0] == b[0] && b[0] == c[0] {
      BelowTransitive(a[1..], b[1..], c[1..]);
    }
  }

  lemma {:induction false} BelowTotal(a: string, b: string)
    requires a != b
    ensures Below(a, b) || Below(b, a)
    decreases |a|
  {
    if a != [] && b != [] && a[0] == b[0] {
      assert a == [a[0]] + a[1..] && b == [b[0]] + b[1..];
      BelowTotal(a[1..], b[1..]);
    }
  }

  /** A common prefix does not change the order. */
  lemma {:induction false} BelowCommonPrefix(p: string, x: string, y: string)
    ensures Below(p + x, p + y) <==> Below(x, y)
    decreases |p|
  {
    if p == [] {
      assert p + x == x && p + y == y;
    } else {
      assert (p + x)[1..] == p[1..] + x && (p + y)[1..] == p[1..] + y;
      BelowCommonPrefix(p[1..], x, y);
    }
  }

  /** The default comparator of `Array.prototype.sort` compares the string
      forms of the elements; an entry `[key, value]` prints as the key, a comma
      and the value's `toString()`, which for a plain object is constant. */
  const EntrySuffix := ",[object Object]"

  function SortString(key: string): string
  {
    key + EntrySuffix
  }

  predicate EntryBefore(k1: string, k2: string)
  {
    Below(SortString(k1), SortString(k2))
  }

  /** Distinct keys are always ordered one way or the other, never both. */
  lemma EntryOrderTotal(k1: string, k2: string)
    requires k1 != k2
    ensures EntryBefore(k1, k2) != EntryBefore(k2, k1)
  {
    if |k1| == |k2| {
      assert SortString(k1)[..|k1|] == k1 && SortString(k2)[..|k2|] == k2;
    }
    BelowTotal(SortString(k1), SortString(k2));
    if EntryBefore(k1, k2) && EntryBefore(k2, k1) {
      BelowTransitive(SortString(k1), SortString(k2), SortString(k1));
      BelowIrreflexive(SortString(k1));
    }
  }

  /** Not a plain key order: a name's marked twin comes before the name
      itself, because '(' precedes ','. */
  lemma MarkedNameSortsFirst(name: string)
    ensures EntryBefore(name + DuplicateMarker, name)
  {
    assert SortString(name + DuplicateMarker) == name + (DuplicateMarker + EntrySuffix);
    BelowCommonPrefix(name, DuplicateMarker + EntrySuffix, EntrySuffix);
  }

  predicate SortedKeys(ks: seq<string>)
  {
    forall i, j | 0 <= i < j < |ks| :: EntryBefore(ks[i], ks[j])
  }

  /** Inserts a key in a sorted list of keys. */
  function Insert(ks: seq<string>, k: string): seq<string>
  {
    if ks == [] then [k]
    else if EntryBefore(k, ks[0]) then [k] + ks
    else [ks[0]] + Insert(ks[1..], k)
  }

  /** A key that comes before every key of a sorted list can head it. */
  lemma ConsSorted(k: string, ks: seq<string>)
    requires SortedKeys(ks)
    requires forall x | x in ks :: EntryBefore(k, x)
    ensures SortedKeys([k] + ks)
  {
    forall i, j | 0 <= i < j < |[k] + ks| ensures EntryBefore(([k] + ks)[i], ([k] + ks)[j]) {
      if i > 0 {
        assert ([k] + ks)[i] == ks[i - 1] && ([k] + ks)[j] == ks[j - 1];
      } else {
        assert ([k] + ks)[j] in ks;
      }
    }
  }

  /** Insertion adds exactly the inserted key. */
  lemma {:induction false} InsertAddsKey(ks: seq<string>, k: string)
    ensures multiset(Insert(ks, k)) == multiset(ks) + multiset{k}
  {
    if ks != [] && !EntryBefore(k, ks[0]) {
      InsertAddsKey(ks[1..], k);
      assert ks == [ks[0]] + ks[1..];
    }
  }

  lemma {:induction false} InsertSorted(ks: seq<string>, k: string)
    requires SortedKeys(ks) && k !in ks
    ensures SortedKeys(Insert(ks, k))
    ensures multiset(Insert(ks, k)) == multiset(ks) + multiset{k}
  {
    InsertAddsKey(ks, k);
    if ks == [] {
    } else if EntryBefore(k, ks[0]) {
      forall x | x in ks ensures EntryBefore(k, x) {
        var j :| 0 <= j < |ks| && ks[j] == x;
        if j > 0 {
          BelowTransitive(SortString(k), SortString(ks[0]), SortString(ks[j]));
        }
      }
      ConsSorted(k, ks);
    } else {
      var rest := Insert(ks[1..], k);
      InsertSorted(ks[1..], k);
      EntryOrderTotal(k, ks[0]);
      forall x | x in rest ensures EntryBefore(ks[0], x) {
        assert x in multiset(rest);
        if x != k {
          assert x in ks[1..];
        }
      }
      ConsSorted(ks[0], rest);
    }
  }

  lemma HasMember(ks: seq<string>)
    requires ks != []
    ensures exists k :: k in ks
  {
    assert ks[0] in ks;
  }

  /** Strict order leaves no choice: two sorted lists of the same keys are equal. */
  lemma {:induction false} SortedKeysUnique(a: seq<string>, b: seq<string>)
    requires SortedKeys(a) && SortedKeys(b)
    requires forall k :: k in a <==> k in b
    ensures a == b
    decreases |a|
  {
    if a != [] && b != [] {
      if a[0] != b[0] {
        assert b[0] in a && a[0] in b;
        EntryOrderTotal(a[0], b[0]);
      }
      forall i | 0 < i < |a| ensures a[i] != a[0] {
        BelowIrreflexive(SortString(a[0]));
      }
      forall i | 0 < i < |b| ensures b[i] != b[0] {
        BelowIrreflexive(SortString(b[0]));
      }
      assert forall k :: k in a[1..] <==> k in a && k != a[0];
      assert forall k :: k in b[1..] <==> k in b && k != b[0];
      SortedKeysUnique(a[1..], b[1..]);
      assert a == [a[0]] + a[1..] && b == [b[0]] + b[1..];
    } else if a != [] {
      HasMember(a);
      assert false;
    } else if b != [] {
      HasMember(b);
      assert false;
    }
  }

  /** A returned entry: the key and a snapshot of its value, with the label
      array read through its handle. */
  datatype ContributorView = ContributorView(email: string, contributionsCount: nat, reposContributedTo: seq<string>)

  datatype Entry = Entry(key: string, value: ContributorView)

  function View(s: Aggregates, key: string): ContributorView
    requires s.RefsInRange() && key in s.contributors
  {
    ContributorView(s.contributors[key].email, s.contributors[key].contributionsCount, Labels(s, key))
  }

  /** `entries` holds every entry of the map once, each with its value, in
      the order of their sort strings. */
  ghost predicate IsSortedView(entries: seq<Entry>, s: Aggregates)
    requires s.RefsInRange()
  {
    && |entries| == |s.contributors|
    && (forall k :: k in s.contributors <==> exists i | 0 <= i < |entries| :: entries[i].key == k)
    && (forall i | 0 <= i < |entries| :: entries[i].key in s.contributors && entries[i].value == View(s, entries[i].key))
    && (forall i, j | 0 <= i < j < |entries| :: EntryBefore(entries[i].key, entries[j].key))
  }

  /** Puts a set of keys in the sort order, one insertion at a time. */
  method SortKeys(keySet: set<string>) returns (keys: seq<string>)
    ensures SortedKeys(keys)
    ensures forall k :: k in keys <==> k in keySet
    ensures |keys| == |keySet|
  {
    keys := [];
    var unsorted := keySet;
    while unsorted != {}
      invariant unsorted <= keySet
      invariant SortedKeys(keys)
      invariant forall k :: k in keys <==> k in keySet && k !in unsorted
      invariant |keys| + |unsorted| == |keySet|
      decreases unsorted
    {
      var k :| k in unsorted;
      InsertSorted(keys, k);
      assert forall x :: x in Insert(keys, k) <==> x in multiset(Insert(keys, k));
      keys := Insert(keys, k);
      unsorted := unsorted - {k};
    }
  }

  /** `new Map([...contributorsMap.entries()].sort())`. Because the order is
      strict, the result does not depend on the order the entries were
      inserted in (see `SortedKeysUnique`). */
  method SortEntries(s: Aggregates) returns (entries: seq<Entry>)
    requires s.RefsInRange()
    ensures IsSortedView(entries, s)
  {
    var keys := SortKeys(s.contributors.Keys);
    entries := seq(|keys|, i requires 0 <= i < |keys| => Entry(keys[i], View(s, keys[i])));
    assert forall i | 0 <= i < |keys| :: entries[i].key == keys[i];
  }

  // ---------------------------------------------------------------------------
  // The breakdown table

  function Digit(d: nat): char
    requires d < 10
  {
    "0123456789"[d]
  }

  /** `n.toString()` for a count. */
  function DecimalString(n: nat): (r: string)
    ensures |r| >= 1
    ensures forall i | 0 <= i < |r| :: '0' <= r[i] <= '9'
    ensures r[0] == '0' ==> n == 0
    decreases n
  {
    if n < 10 then [Digit(n)] else DecimalString(n / 10) + [Digit(n % 10)]
  }

  /** Reading a decimal string back. */
  function DecimalValue(s: string): nat
    requires forall i | 0 <= i < |s| :: '0' <= s[i] <= '9'
  {
    if s == [] then 0 else DecimalValue(s[..|s| - 1]) * 10 + ((s[|s| - 1] as int) - ('0' as int))
  }

  lemma DigitValue(d: nat)
    requires d < 10
    ensures (Digit(d) as int) - ('0' as int) == d
  {
  }

  lemma {:induction false} DecimalRoundTrip(n: nat)
    ensures DecimalValue(DecimalString(n)) == n
    decreases n
  {
    var r := DecimalString(n);
    if n < 10 {
      DigitValue(n);
      assert r[..|r| - 1] == [];
      assert DecimalValue(r) == DecimalValue(r[..|r| - 1]) * 10 + ((r[|r| - 1] as int) - ('0' as int));
    } else {
      DecimalRoundTrip(n / 10);
      DigitValue(n % 10);
      assert r[..|r| - 1] == DecimalString(n / 10) && r[|r| - 1] == Digit(n % 10);
      assert DecimalValue(r) == DecimalValue(r[..|r| - 1]) * 10 + ((r[|r| - 1] as int) - ('0' as int));
    }
  }

  const AuthorColumn := "author"

  /** The table of lines 87-107: a header row of "author" and the discovered
      extensions in discovery order, then one row per author in insertion
      order, as long as the header, with the author's count for each
      extension. */
  ghost predicate IsBreakdown(table: seq<seq<string>>, extensions: seq<string>, authors: seq<string>, filesTouched: map<string, map<string, nat>>)
    requires forall a | a in authors :: a in filesTouched
  {
    && |table| == |authors| + 1
    && table[0] == [AuthorColumn] + extensions
    && forall i | 1 <= i < |table| ::
      && |table[i]| == |extensions| + 1
      && table[i][0] == authors[i - 1]
      && forall j | 1 <= j < |table[i]| :: table[i][j] == DecimalString(Get(filesTouched[authors[i - 1]], extensions[j - 1]))
  }

  /** Builds the breakdown table row by row. `authors` lists the keys of
      `filesTouched`, so the source's skip of an author without counters never
      happens. */
  method BuildBreakdown(extensions: seq<string>, authors: seq<string>, filesTouched: map<string, map<string, nat>>)
    returns (table: seq<seq<string>>)
    requires forall a | a in authors :: a in filesTouched
    ensures IsBreakdown(table, extensions, authors, filesTouched)
  {
    var header := [AuthorColumn];
    for e := 0 to |extensions|
      invariant header == [AuthorColumn] + extensions[..e]
    {
      header := header + [extensions[e]];
    }
    assert extensions[..|extensions|] == extensions;
    table := [header];
    for a := 0 to |authors|
      invariant |table| == a + 1 && table[0] == header
      invariant forall i | 1 <= i < |table| ::
        && |table[i]| == |extensions| + 1
        && table[i][0] == authors[i - 1]
        && forall j | 1 <= j < |table[i]| :: table[i][j] == DecimalString(Get(filesTouched[authors[i - 1]], extensions[j - 1]))
    {
      var author := authors[a];
      var touched := filesTouched[author];
      var row := [author];
      for e := 0 to |extensions|
        invariant |row| == e + 1 && row[0] == author
        invariant forall j | 1 <= j < |row| :: row[j] == DecimalString(Get(touched, extensions[j - 1]))
      {
        row := row + [DecimalString(Get(touched, extensions[e]))];
      }
      table := table + [row];
    }
  }

  /** An author with no count for an extension shows "0" in that column. */
  lemma AbsentCountShowsZero(touched: map<string, nat>, extension: string)
    requires extension !in touched
    ensures DecimalString(Get(touched, extension)) == "0"
  {
  }
}
