/** policyToScVal and decodePolicy are inverse up to the decoder's normal form. */
module PolicyScValExact {
  import opened Wrappers
  import opened Policy
  import opened PolicyScVal
  import Lex

  // ---------------------------------------------------------------- symbolMap accepts exactly the canonical maps

  /** Symbol keys, all expected, in strictly ascending order. */
  ghost predicate CanonicalKeys(entries: seq<Entry>, expected: seq<string>, n: nat)
    requires n <= |entries|
  {
    && (forall i :: 0 <= i < n ==> entries[i].key.Symbol? && entries[i].key.name in expected)
    && (forall i, j :: 0 <= i < j < n && j == i + 1 ==> Lex.Less(Codes(entries[i].key.name),
        Codes(entries[j].key.name)))
  }

  /** The fields are those of the first n entries. */
  ghost predicate Holds(fields: map<string, ScVal>, entries: seq<Entry>, n: nat)
    requires n <= |entries|
  {
    && (forall i :: 0 <= i < n ==>
          entries[i].key.Symbol? && entries[i].key.name in fields && fields[entries[i].key.name] == entries[i].val)
    && (forall k :: k in fields ==> exists i :: 0 <= i < n && entries[i].key == Symbol(k))
  }

  lemma CodesAreInjective(a: string, b: string)
    ensures Codes(a) == Codes(b) <==> a == b
  {
    if Codes(a) == Codes(b) {
      forall i | 0 <= i < |a| ensures a[i] == b[i] {
        assert Codes(a)[i] == Codes(b)[i];
      }
    }
  }

  lemma {:induction false} AscendingPairs(entries: seq<Entry>, expected: seq<string>, n: nat, i: nat, j: nat)
    requires n <= |entries| && CanonicalKeys(entries, expected, n) && i < j < n
    ensures Lex.Less(Codes(entries[i].key.name), Codes(entries[j].key.name))
    ensures entries[i].key.name != entries[j].key.name
  {
    assert Lex.Less(Codes(entries[j - 1].key.name), Codes(entries[j].key.name));
    if i < j - 1 {
      AscendingPairs(entries, expected, n, i, j - 1);
      Lex.Transitive(Codes(entries[i].key.name), Codes(entries[j - 1].key.name), Codes(entries[j].key.name));
    }
    Lex.Trichotomy(Codes(entries[i].key.name), Codes(entries[j].key.name));
  }

  /** Entry n-1 may follow the ones before it. */
  ghost predicate MayFollow(entries: seq<Entry>, expected: seq<string>, n: nat)
    requires 0 < n <= |entries|
  {
    && entries[n - 1].key.Symbol? && entries[n - 1].key.name in expected
    && (n > 1 && entries[n - 2].key.Symbol? ==> Lex.Less(Codes(entries[n - 2].key.name),
        Codes(entries[n - 1].key.name)))
  }

  lemma CanonicalNext(entries: seq<Entry>, expected: seq<string>, n: nat)
    requires 0 < n <= |entries|
    ensures CanonicalKeys(entries, expected, n) <==>
      CanonicalKeys(entries, expected, n - 1) && MayFollow(entries, expected, n)
  {}

  ghost predicate Matches(r: Reading, entries: seq<Entry>, n: nat)
    requires n <= |entries|
  {
    && Holds(r.fields, entries, n)
    && r.previous == if n == 0 then None else Some(entries[n - 1].key.name)
  }

  lemma HoldsNext(fields: map<string, ScVal>, entries: seq<Entry>, n: nat)
    requires 0 < n <= |entries| && Holds(fields, entries, n - 1)
    requires entries[n - 1].key.Symbol? && entries[n - 1].key.name !in fields
    ensures Holds(fields[entries[n - 1].key.name := entries[n - 1].val], entries, n)
  {
    var e := entries[n - 1];
    var longer := fields[e.key.name := e.val];
    forall k | k in longer
      ensures exists i :: 0 <= i < n && entries[i].key == Symbol(k)
    {
      if k == e.key.name {
        assert entries[n - 1].key == Symbol(k);
      } else {
        var i :| 0 <= i < n - 1 && entries[i].key == Symbol(k);
      }
    }
  }

  lemma NameIsNew(fields: map<string, ScVal>, entries: seq<Entry>, expected: seq<string>, n: nat)
    requires 0 < n <= |entries| && CanonicalKeys(entries, expected, n) && Holds(fields, entries, n - 1)
    ensures entries[n - 1].key.name !in fields
  {
    if entries[n - 1].key.name in fields {
      var i :| 0 <= i < n - 1 && entries[i].key == Symbol(entries[n - 1].key.name);
      AscendingPairs(entries, expected, n, i, n - 1);
    }
  }

  lemma ReadEntryExactly(entries: seq<Entry>, expected: seq<string>, n: nat, r: Reading)
    requires 0 < n <= |entries| && CanonicalKeys(entries, expected, n - 1) && Matches(r, entries, n - 1)
    ensures ReadEntry(r, entries[n - 1], expected).Ok? <==> MayFollow(entries, expected, n)
    ensures ReadEntry(r, entries[n - 1], expected).Ok? ==>
      Matches(ReadEntry(r, entries[n - 1], expected).value, entries, n)
  {
    CanonicalNext(entries, expected, n);
    LastIsSymbol(entries, expected, n);
    hide CanonicalKeys, Holds, Lex.Less, Codes;
    if MayFollow(entries, expected, n) {
      NameIsNew(r.fields, entries, expected, n);
      HoldsNext(r.fields, entries, n);
    }
  }

  lemma LastIsSymbol(entries: seq<Entry>, expected: seq<string>, n: nat)
    requires 1 < n <= |entries| ==> CanonicalKeys(entries, expected, n - 1)
    ensures 1 < n <= |entries| ==> entries[n - 2].key.Symbol?
  {
  }

  lemma {:induction false} ReadEntriesExactly(entries: seq<Entry>, expected: seq<string>, n: nat)
    requires n <= |entries|
    ensures ReadEntries(entries, expected, n).Ok? <==> CanonicalKeys(entries, expected, n)
    ensures ReadEntries(entries, expected, n).Ok? ==> Matches(ReadEntries(entries, expected, n).value, entries, n)
  {
    if n > 0 {
      ReadEntriesExactly(entries, expected, n - 1);
      CanonicalNext(entries, expected, n);
      if CanonicalKeys(entries, expected, n - 1) {
        ReadEntryExactly(entries, expected, n, ReadEntries(entries, expected, n - 1).value);
      }
    }
  }

  ghost predicate CanonicalMap(v: ScVal, expected: seq<string>, optional: seq<string>) {
    && v.Map? && CanonicalKeys(v.entries, expected, |v.entries|)
    && forall k :: k in expected && k !in optional ==> exists i :: 0 <= i < |v.entries| && v.entries[i].key == Symbol(k)
  }

  /**
   symbolMap accepts a map exactly when its keys are symbols in strictly ascending order, every one expected and every
   required one there; it then holds each entry's value under its name and nothing else.
   */
  lemma SymbolMapAcceptsExactly(v: ScVal, expected: seq<string>, optional: seq<string>)
    ensures SymbolFields(v, expected, optional).Ok? <==> CanonicalMap(v, expected, optional)
    ensures SymbolFields(v, expected, optional).Ok? ==>
      Holds(SymbolFields(v, expected, optional).value, v.entries, |v.entries|)
  {
    if v.Map? {
      ReadEntriesExactly(v.entries, expected, |v.entries|);
      if ReadEntries(v.entries, expected, |v.entries|).Ok? {
        RequiredExactly(ReadEntries(v.entries, expected, |v.entries|).value.fields, v.entries, expected, optional);
      }
    }
  }

  lemma RequiredExactly(fields: map<string, ScVal>, entries: seq<Entry>, expected: seq<string>, optional: seq<string>)
    requires Holds(fields, entries, |entries|)
    ensures HasRequired(fields, expected, optional) <==>
      forall k :: k in expected && k !in optional ==> exists i :: 0 <= i < |entries| && entries[i].key == Symbol(k)
  {
    forall k | k in fields ensures exists i :: 0 <= i < |entries| && entries[i].key == Symbol(k) {}
    if HasRequired(fields, expected, optional) {
      forall k | k in expected && k !in optional ensures exists i :: 0 <= i < |entries| && entries[i].key == Symbol(k) {
        var j :| 0 <= j < |expected| && expected[j] == k;
        assert k in fields;
      }
    }
  }

  // ---------------------------------------------------------------- and names what is wrong with any other

  ghost predicate NamedEarlier(entries: seq<Entry>, i: nat)
    requires i < |entries| && entries[i].key.Symbol?
  {
    exists j :: 0 <= j < i && entries[j].key == entries[i].key
  }

  /** The name of entry i is not above that of the entry before it. */
  ghost predicate OutOfOrder(entries: seq<Entry>, i: nat)
    requires i < |entries| && entries[i].key.Symbol?
  {
    i > 0 && entries[i - 1].key.Symbol? && !Lex.Less(Codes(entries[i - 1].key.name), Codes(entries[i].key.name))
  }

  /** What is wrong with entry i, when nothing is with those before it. */
  ghost predicate Fault(entries: seq<Entry>, expected: seq<string>, i: nat, e: DecodeError)
    requires i < |entries|
  {
    if !entries[i].key.Symbol? then e == KeyNotSymbol
    else if NamedEarlier(entries, i) then e == DuplicateField
    else if OutOfOrder(entries, i) then e == NotSorted
    else entries[i].key.name !in expected && e == UnknownField
  }

  lemma ReadEntryFails(entries: seq<Entry>, expected: seq<string>, n: nat, r: Reading, e: DecodeError)
    requires 0 < n <= |entries| && CanonicalKeys(entries, expected, n - 1) && Matches(r, entries, n - 1)
    ensures ReadEntry(r, entries[n - 1], expected) == Err(e) <==> Fault(entries, expected, n - 1, e)
  {
    LastIsSymbol(entries, expected, n);
    if entries[n - 1].key.Symbol? {
      NamedExactly(r.fields, entries, n);
    }
    hide CanonicalKeys, Holds, Lex.Less, Codes, NamedEarlier;
  }

  lemma NamedExactly(fields: map<string, ScVal>, entries: seq<Entry>, n: nat)
    requires 0 < n <= |entries| && Holds(fields, entries, n - 1) && entries[n - 1].key.Symbol?
    ensures entries[n - 1].key.name in fields <==> NamedEarlier(entries, n - 1)
  {
    var name := entries[n - 1].key.name;
    if name in fields {
      var i :| 0 <= i < n - 1 && entries[i].key == Symbol(name);
    }
    if NamedEarlier(entries, n - 1) {
      var j :| 0 <= j < n - 1 && entries[j].key == entries[n - 1].key;
      assert entries[j].key.name in fields;
    }
  }

  /** Entry i is the first with something wrong about it. */
  ghost predicate FirstFault(entries: seq<Entry>, expected: seq<string>, i: nat, e: DecodeError)
    requires i < |entries|
  {
    CanonicalKeys(entries, expected, i) && Fault(entries, expected, i, e)
  }

  lemma LastFault(entries: seq<Entry>, expected: seq<string>, n: nat, e: DecodeError)
    requires 0 < n <= |entries|
    ensures FirstFault(entries, expected, n - 1, e) <==>
            && ReadEntries(entries, expected, n - 1).Ok?
            && ReadEntry(ReadEntries(entries, expected, n - 1).value, entries[n - 1], expected) == Err(e)
  {
    hide ReadEntries, ReadEntry, Fault, CanonicalKeys, Matches;
    ReadEntriesExactly(entries, expected, n - 1);
    if CanonicalKeys(entries, expected, n - 1) {
      ReadEntryFails(entries, expected, n, ReadEntries(entries, expected, n - 1).value, e);
    }
  }

  lemma {:induction false} ReadEntriesFails(entries: seq<Entry>, expected: seq<string>, n: nat, e: DecodeError)
    requires n <= |entries|
    ensures ReadEntries(entries, expected, n) == Err(e) <==>
      exists i: nat :: i < n && FirstFault(entries, expected, i, e)
  {
    hide ReadEntry, FirstFault;
    if n > 0 {
      ReadEntriesFails(entries, expected, n - 1, e);
      LastFault(entries, expected, n, e);
    }
  }

  /**
   symbolMap fails with an error exactly when the value is no map, when that is what is wrong with the first entry
   that is not in its place, or when all entries are and a required field is missing.
   */
  lemma SymbolMapFailsExactly(v: ScVal, expected: seq<string>, optional: seq<string>, e: DecodeError)
    ensures SymbolFields(v, expected, optional) == Err(e) <==>
      || (!v.Map? && e == NotAMap)
      || (v.Map? && exists i: nat :: i < |v.entries| && FirstFault(v.entries, expected, i, e))
      || (v.Map? && e == MissingField && CanonicalKeys(v.entries, expected, |v.entries|)
          && !CanonicalMap(v, expected, optional))
  {
    hide CanonicalKeys, FirstFault;
    if v.Map? {
      ReadEntriesExactly(v.entries, expected, |v.entries|);
      ReadEntriesFails(v.entries, expected, |v.entries|, e);
      SymbolMapAcceptsExactly(v, expected, optional);
    }
  }

  // ---------------------------------------------------------------- sortedScMap builds canonical maps

  ghost predicate Distinct(entries: seq<Named>) {
    forall i, j :: 0 <= i < j < |entries| ==> entries[i].key != entries[j].key
  }

  lemma {:induction false} OnceEach(entries: seq<Named>, x: Named)
    requires Distinct(entries)
    ensures multiset(entries)[x] <= 1
  {
    if entries != [] {
      var n := |entries| - 1;
      assert entries == entries[..n] + [entries[n]];
      OnceEach(entries[..n], x);
      if x in entries[..n] {
        assert x != entries[n];
      } else {
        assert x !in multiset(entries[..n]);
      }
    }
  }

  lemma TwiceAdjacent(s: seq<Named>, i: nat)
    requires i + 1 < |s| && s[i] == s[i + 1]
    ensures multiset(s)[s[i]] >= 2
  {
    assert s == s[..i] + ([s[i]] + ([s[i + 1]] + s[i + 2..]));
  }

  /** The sorted entries are the entries, in strictly ascending key order. */
  lemma AdjacentAscend(entries: seq<Named>, s: seq<Named>, i: nat)
    requires Distinct(entries) && Lex.Ordered(s, KeyOf) && multiset(s) == multiset(entries) && i + 1 < |s|
    ensures Lex.Less(Codes(s[i].key), Codes(s[i + 1].key))
  {
    assert !Lex.Less(KeyOf(s[i + 1]), KeyOf(s[i]));
    hide Lex.Less, Codes, Lex.Ordered;
    if s[i].key == s[i + 1].key {
      assert s[i] in multiset(entries) && s[i + 1] in multiset(entries);
      assert s[i] == s[i + 1];
      TwiceAdjacent(s, i);
      OnceEach(entries, s[i]);
    }
    CodesAreInjective(s[i].key, s[i + 1].key);
    Lex.Trichotomy(Codes(s[i].key), Codes(s[i + 1].key));
  }

  lemma SameMembers<T>(s: seq<T>, t: seq<T>)
    requires multiset(s) == multiset(t)
    ensures forall x :: x in s <==> x in t
  {
    forall x
      ensures x in s <==> x in t
    {
      assert x in s <==> x in multiset(s);
      assert x in t <==> x in multiset(t);
    }
  }

  lemma SortedStrictly(entries: seq<Named>)
    requires Distinct(entries)
    ensures var s := Lex.Sort(entries, KeyOf);
      && |s| == |entries|
      && (forall x :: x in s <==> x in entries)
      && (forall i, j :: 0 <= i < j < |s| && j == i + 1 ==> Lex.Less(Codes(s[i].key), Codes(s[j].key)))
  {
    hide Lex.Sort, Lex.Less, Lex.Ordered, Distinct;
    var s := Lex.Sort(entries, KeyOf);
    Lex.SortContents(entries, KeyOf);
    SameMembers(s, entries);
    forall i, j | 0 <= i < j < |s| && j == i + 1 ensures Lex.Less(Codes(s[i].key), Codes(s[j].key)) {
      AdjacentAscend(entries, s, i);
    }
  }

  ghost predicate HasAll(fields: map<string, ScVal>, entries: seq<Named>) {
    forall i :: 0 <= i < |entries| ==> Get(fields, entries[i].key) == Ok(entries[i].val)
  }

  lemma SortedReadsBack(entries: seq<Named>, expected: seq<string>, optional: seq<string>)
    requires Distinct(entries)
    requires forall x :: x in entries ==> x.key in expected
    requires forall k :: k in expected ==> k in optional || exists i :: 0 <= i < |entries| && entries[i].key == k
    ensures CanonicalMap(SortedScMap(entries), expected, optional)
    ensures SymbolFields(SortedScMap(entries), expected, optional).Ok?
    ensures HasAll(SymbolFields(SortedScMap(entries), expected, optional).value, entries)
  {
    SortedStrictly(entries);
    var s := Lex.Sort(entries, KeyOf);
    var v := SortedScMap(entries);
    forall i | 0 <= i < |s| ensures v.entries[i].key.Symbol? && v.entries[i].key.name in expected {
      assert s[i] in entries;
    }
    forall k | k in expected && k !in optional
      ensures exists i :: 0 <= i < |v.entries| && v.entries[i].key == Symbol(k)
    {
      var j :| 0 <= j < |entries| && entries[j].key == k;
      assert entries[j] in s;
      var i :| 0 <= i < |s| && s[i] == entries[j];
      assert v.entries[i].key == Symbol(k);
    }
    SymbolMapAcceptsExactly(v, expected, optional);
    var fields := SymbolFields(v, expected, optional).value;
    forall j | 0 <= j < |entries| ensures Get(fields, entries[j].key) == Ok(entries[j].val) {
      assert entries[j] in s;
      var i :| 0 <= i < |s| && s[i] == entries[j];
      assert v.entries[i] == Entry(Symbol(entries[j].key), entries[j].val);
    }
  }

  // ---------------------------------------------------------------- the field names of a policy differ

  /** Length and first letter tell the names of a policy's fields apart. */
  function Stamp(name: string): int {
    if name == "" then 0 else |name| * 128 + name[0] as int
  }

  function Stamps(entries: seq<Named>): (r: seq<int>)
    ensures |r| == |entries|
  {
    seq(|entries|, i requires 0 <= i < |entries| => Stamp(entries[i].key))
  }

  lemma PolicyStamps(book: AddressBook, p: Policy)
    ensures Stamps(PolicyEntries(book, p))
         == [1392, 1527, 1399, 865, 1264, 1394, 2802, 2402, 2529, 1505, 1633, 880, 1892, 3312, 1377]
  {
    hide AddressVec, RuleVec, CapVec;
  }

  lemma PolicyEntriesDistinct(book: AddressBook, p: Policy)
    ensures Distinct(PolicyEntries(book, p))
  {
    hide PolicyEntries, Stamp;
    var entries := PolicyEntries(book, p);
    var stamps := Stamps(entries);
    PolicyStamps(book, p);
    forall i, j | 0 <= i < j < |entries| ensures entries[i].key != entries[j].key {
      assert stamps[i] != stamps[j];
    }
  }
}
