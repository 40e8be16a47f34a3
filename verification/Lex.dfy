/** Lexicographic order on code-unit sequences and a stable sort by such a key, as Array.prototype.sort does it. */
module Lex {
  predicate Less(a: seq<nat>, b: seq<nat>) {
    b != [] && (a == [] || a[0] < b[0] || (a[0] == b[0] && Less(a[1..], b[1..])))
  }

  lemma {:induction false} Trichotomy(a: seq<nat>, b: seq<nat>)
    ensures Less(a, b) || Less(b, a) <==> a != b
    ensures !(Less(a, b) && Less(b, a))
  {
    if a != [] && b != [] && a[0] == b[0] {
      Trichotomy(a[1..], b[1..]);
      assert a == [a[0]] + a[1..] && b == [b[0]] + b[1..];
    }
  }

  lemma {:induction false} Transitive(a: seq<nat>, b: seq<nat>, c: seq<nat>)
    requires Less(a, b) && Less(b, c)
    ensures Less(a, c)
  {
    if a != [] && a[0] == b[0] == c[0] {
      Transitive(a[1..], b[1..], c[1..]);
    }
  }

  /** x goes in front of the first element that is not smaller. */
  function Insert<T>(x: T, s: seq<T>, key: T -> seq<nat>): seq<T> {
    if s == [] || !Less(key(s[0]), key(x)) then [x] + s else [s[0]] + Insert(x, s[1..], key)
  }

  function Sort<T>(s: seq<T>, key: T -> seq<nat>): seq<T> {
    if s == [] then [] else Insert(s[0], Sort(s[1..], key), key)
  }

  /** Adjacent elements are in order; by transitivity all of them are. */
  ghost predicate Ordered<T>(s: seq<T>, key: T -> seq<nat>) {
    forall i :: 0 <= i < |s| - 1 ==> !Less(key(s[i + 1]), key(s[i]))
  }

  lemma {:induction false} InsertContents<T>(x: T, s: seq<T>, key: T -> seq<nat>)
    ensures multiset(Insert(x, s, key)) == multiset{x} + multiset(s)
    ensures Insert(x, s, key) != []
    ensures Insert(x, s, key)[0] == x || (s != [] && Insert(x, s, key)[0] == s[0] && Less(key(s[0]), key(x)))
  {
    if s == [] {
    } else if !Less(key(s[0]), key(x)) {
    } else {
      InsertContents(x, s[1..], key);
      assert s == [s[0]] + s[1..];
    }
  }

  lemma {:induction false} InsertKeepsOrder<T>(x: T, s: seq<T>, key: T -> seq<nat>)
    requires Ordered(s, key)
    ensures Ordered(Insert(x, s, key), key)
  {
    if s == [] || !Less(key(s[0]), key(x)) {
    } else {
      assert Ordered(s[1..], key) by {
        forall i | 0 <= i < |s[1..]| - 1 ensures !Less(key(s[1..][i + 1]), key(s[1..][i])) {
          assert s[1..][i] == s[i + 1] && s[1..][i + 1] == s[i + 1 + 1];
        }
      }
      var rest := Insert(x, s[1..], key);
      InsertKeepsOrder(x, s[1..], key);
      InsertContents(x, s[1..], key);
      Trichotomy(key(s[0]), key(x));
      assert s[1..] != [] ==> s[1..][0] == s[0 + 1];
      assert !Less(key(rest[0]), key(s[0]));
      forall i | 0 <= i < |rest| ensures !Less(key(([s[0]] + rest)[i + 1]), key(([s[0]] + rest)[i])) {
        if i > 0 {
          var j := i - 1;
          assert rest[j + 1] == ([s[0]] + rest)[i + 1];
        }
      }
    }
  }

  lemma {:induction false} SortContents<T>(s: seq<T>, key: T -> seq<nat>)
    ensures multiset(Sort(s, key)) == multiset(s)
    ensures Ordered(Sort(s, key), key)
    ensures |Sort(s, key)| == |s|
  {
    if s != [] {
      SortContents(s[1..], key);
      InsertContents(s[0], Sort(s[1..], key), key);
      InsertKeepsOrder(s[0], Sort(s[1..], key), key);
      assert s == [s[0]] + s[1..];
    }
    assert |multiset(Sort(s, key))| == |multiset(s)|;
  }

  /** In an ordered sequence nothing is smaller than an element before it. */
  lemma {:induction false} OrderedPairs<T>(s: seq<T>, key: T -> seq<nat>, i: nat, j: nat)
    requires Ordered(s, key) && i <= j < |s|
    ensures !Less(key(s[j]), key(s[i]))
    decreases j - i
  {
    Trichotomy(key(s[i]), key(s[i]));
    if i < j {
      OrderedPairs(s, key, i, j - 1);
      assert !Less(key(s[j - 1 + 1]), key(s[j - 1]));
      var a, b, c := key(s[i]), key(s[j - 1]), key(s[j]);
      if Less(c, a) {
        Trichotomy(a, b);
        Trichotomy(b, c);
        if a != b {
          Transitive(c, a, b);
        }
      }
    }
  }

  ghost predicate InjectiveOn<T>(s: seq<T>, key: T -> seq<nat>) {
    forall x, y :: x in s && y in s && key(x) == key(y) ==> x == y
  }

  lemma SameHead<T>(a: seq<T>, b: seq<T>, key: T -> seq<nat>)
    requires Ordered(a, key) && Ordered(b, key) && a != [] && b != []
    requires multiset(a) == multiset(b) && InjectiveOn(a, key)
    ensures a[0] == b[0]
  {
    assert a[0] in multiset(b) && b[0] in multiset(a);
    var i :| 0 <= i < |a| && a[i] == b[0];
    var j :| 0 <= j < |b| && b[j] == a[0];
    OrderedPairs(a, key, 0, i);
    OrderedPairs(b, key, 0, j);
    Trichotomy(key(a[0]), key(b[0]));
  }

  lemma RestOfMultiset<T>(a: seq<T>, b: seq<T>)
    requires a != [] && b != [] && multiset(a) == multiset(b) && a[0] == b[0]
    ensures multiset(a[1..]) == multiset(b[1..])
  {
    assert a == [a[0]] + a[1..] && b == [b[0]] + b[1..];
    assert multiset(a[1..]) == multiset(a) - multiset{a[0]};
    assert multiset(b[1..]) == multiset(b) - multiset{b[0]};
  }

  lemma InjectiveOnTail<T>(a: seq<T>, key: T -> seq<nat>)
    requires a != [] && InjectiveOn(a, key)
    ensures InjectiveOn(a[1..], key)
  {
  }

  /** Ordered arrangements of the same multiset are the same sequence. */
  lemma {:induction false} OrderedIsUnique<T>(a: seq<T>, b: seq<T>, key: T -> seq<nat>)
    requires Ordered(a, key) && Ordered(b, key) && multiset(a) == multiset(b) && InjectiveOn(a, key)
    ensures a == b
  {
    hide Ordered, InjectiveOn, Less;
    assert |a| == |multiset(a)| == |multiset(b)| == |b|;
    if a != [] {
      SameHead(a, b, key);
      RestOfMultiset(a, b);
      OrderedTail(a, key);
      OrderedTail(b, key);
      InjectiveOnTail(a, key);
      OrderedIsUnique(a[1..], b[1..], key);
      assert a == [a[0]] + a[1..] && b == [b[0]] + b[1..];
    }
  }

  lemma OrderedTail<T>(s: seq<T>, key: T -> seq<nat>)
    requires s != [] && Ordered(s, key)
    ensures Ordered(s[1..], key)
  {
    forall i | 0 <= i < |s[1..]| - 1 ensures !Less(key(s[1..][i + 1]), key(s[1..][i])) {
      assert s[1..][i] == s[i + 1] && s[1..][i + 1] == s[i + 1 + 1];
    }
  }

  lemma InjectiveOnArrangement<T>(a: seq<T>, b: seq<T>, s: seq<T>, key: T -> seq<nat>)
    requires InjectiveOn(a + b, key) && multiset(s) == multiset(a)
    ensures InjectiveOn(s, key)
  {
    forall x, y | x in s && y in s && key(x) == key(y)
      ensures x == y
    {
      assert x in multiset(s) && y in multiset(s);
      assert x in a && y in a;
    }
  }

  /** Sorting by an injective key forgets exactly the order of the elements. */
  lemma {:induction false} SortForgetsOrder<T>(a: seq<T>, b: seq<T>, key: T -> seq<nat>)
    requires InjectiveOn(a + b, key)
    ensures Sort(a, key) == Sort(b, key) <==> multiset(a) == multiset(b)
  {
    hide Sort, Ordered, InjectiveOn;
    SortContents(a, key);
    SortContents(b, key);
    if multiset(a) == multiset(b) {
      InjectiveOnArrangement(a, b, Sort(a, key), key);
      OrderedIsUnique(Sort(a, key), Sort(b, key), key);
    }
  }
}
