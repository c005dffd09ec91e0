/** Shared vocabulary of the model: optional values, the error outcomes of the
    catalogue, the ordering used by every "sorted by id" query, Java string tests
    and the decimal rendering of ids inside error messages. */
module Common {

  datatype Option<+T> = None | Some(value: T)

  /** The exceptions the core raises, plus the crash and database outcomes that
      surface as runtime errors in the source. */
  datatype Error =
    | NotFound(message: string)
    /** NotFoundException whose message is the text of the set of missing genre ids */
    | GenresNotFound(missing: set<int>)
    | Validation(message: string)
    /** FriendsException */
    | FriendsError(message: string)
    /** a NullPointerException raised by dereferencing an absent value */
    | NullDereference
    /** a foreign-key or key violation reported by the database */
    | IntegrityViolation
    /** the database refuses a negative LIMIT */
    | InvalidLimit

  datatype Result<+T> = Ok(value: T) | Err(error: Error)

  /** Result of an operation that returns nothing (a Java `void` method). */
  datatype Outcome = Pass | Fail(error: Error)

  // ---------------------------------------------------------------------------
  // Enumeration of generated keys.  Keys handed out by a counter lie in
  // 1..last, so `ORDER BY id` over such a table is a scan of that range.
  // ---------------------------------------------------------------------------

  /** The keys of `keys` between 1 and `last`, ascending. */
  function KeysUpTo(keys: set<int>, last: int): (r: seq<int>)
    ensures forall i :: 0 <= i < |r| ==> r[i] in keys && 1 <= r[i] <= last
    ensures forall k :: k in r <==> k in keys && 1 <= k <= last
    ensures forall i, j :: 0 <= i < j < |r| ==> r[i] < r[j]
    decreases last
  {
    if last < 1 then []
    else if last in keys then KeysUpTo(keys, last - 1) + [last]
    else KeysUpTo(keys, last - 1)
  }

  /** Every key of a table whose keys lie in 1..last is listed exactly once. */
  lemma {:induction false} KeysUpToCount(keys: set<int>, last: int)
    requires forall k :: k in keys ==> 1 <= k <= last
    ensures |KeysUpTo(keys, last)| == |keys|
    decreases last
  {
    if last >= 1 {
      var below := keys - {last};
      KeysUpToCount(below, last - 1);
      KeysUpToSame(keys, below, last - 1);
      if last in keys {
        assert KeysUpTo(keys, last) == KeysUpTo(keys, last - 1) + [last];
        assert |keys| == |below| + 1;
      } else {
        assert KeysUpTo(keys, last) == KeysUpTo(keys, last - 1);
        assert keys == below;
      }
    }
  }

  /** KeysUpTo only looks at keys within 1..last. */
  lemma {:induction false} KeysUpToSame(a: set<int>, b: set<int>, last: int)
    requires forall k :: 1 <= k <= last ==> (k in a <==> k in b)
    ensures KeysUpTo(a, last) == KeysUpTo(b, last)
    decreases last
  {
    if last >= 1 {
      KeysUpToSame(a, b, last - 1);
    }
  }

  function Min(a: int, b: int): int {
    if a < b then a else b
  }

  // ---------------------------------------------------------------------------
  // Ordering of integer keys ascending by (key(x), x).  With key(x) = -likes(x)
  // this is "most liked first, lower id first among equals".
  // ---------------------------------------------------------------------------

  predicate Before(key: int -> int, a: int, b: int) {
    key(a) < key(b) || (key(a) == key(b) && a < b)
  }

  predicate StrictlyOrdered(r: seq<int>, key: int -> int) {
    forall i, j :: 0 <= i < j < |r| ==> Before(key, r[i], r[j])
  }

  predicate Distinct<T(==)>(s: seq<T>) {
    forall i, j :: 0 <= i < j < |s| ==> s[i] != s[j]
  }

  /** Inserts x in front of the first element it comes before. */
  function InsertOrdered(x: int, r: seq<int>, key: int -> int): seq<int> {
    if r == [] || Before(key, x, r[0]) then [x] + r
    else [r[0]] + InsertOrdered(x, r[1..], key)
  }

  /** Insertion sort of a list of keys by (key(x), x). */
  function SortOrdered(s: seq<int>, key: int -> int): seq<int> {
    if s == [] then [] else InsertOrdered(s[0], SortOrdered(s[1..], key), key)
  }

  lemma {:induction false} InsertOrderedPerm(x: int, r: seq<int>, key: int -> int)
    ensures multiset(InsertOrdered(x, r, key)) == multiset(r) + multiset{x}
    decreases r
  {
    if r != [] && !Before(key, x, r[0]) {
      InsertOrderedPerm(x, r[1..], key);
      assert r == [r[0]] + r[1..];
    }
  }

  lemma {:induction false} InsertOrderedSorted(x: int, r: seq<int>, key: int -> int)
    requires StrictlyOrdered(r, key) && x !in r
    ensures StrictlyOrdered(InsertOrdered(x, r, key), key)
    decreases r
  {
    if r == [] || Before(key, x, r[0]) {
      var t := [x] + r;
      forall i, j | 0 <= i < j < |t| ensures Before(key, t[i], t[j]) {
        if i > 0 { assert t[i] == r[i - 1] && t[j] == r[j - 1]; }
        else if j > 1 { assert Before(key, r[0], r[j - 1]); }
      }
    } else {
      assert x != r[0] && x !in r[1..];
      var rest := InsertOrdered(x, r[1..], key);
      InsertOrderedSorted(x, r[1..], key);
      InsertOrderedPerm(x, r[1..], key);
      var t := [r[0]] + rest;
      forall i, j | 0 <= i < j < |t| ensures Before(key, t[i], t[j]) {
        if i == 0 {
          assert t[j] in multiset(rest);
          assert t[j] == x || t[j] in r[1..];
        }
      }
    }
  }

  /** Sorting distinct keys yields a strictly ordered permutation. */
  lemma {:induction false} SortOrderedCorrect(s: seq<int>, key: int -> int)
    requires Distinct(s)
    ensures multiset(SortOrdered(s, key)) == multiset(s)
    ensures StrictlyOrdered(SortOrdered(s, key), key)
    decreases s
  {
    if s != [] {
      SortOrderedCorrect(s[1..], key);
      var r := SortOrdered(s[1..], key);
      assert s == [s[0]] + s[1..];
      assert s[0] !in r by {
        assert s[0] !in s[1..];
        assert s[0] !in multiset(s[1..]);
      }
      InsertOrderedPerm(s[0], r, key);
      InsertOrderedSorted(s[0], r, key);
    }
  }

  /** The first element of a strictly ordered list comes before every later one,
      so two such lists over the same keys start alike. */
  lemma SameHead(r: seq<int>, t: seq<int>, key: int -> int)
    requires StrictlyOrdered(r, key) && StrictlyOrdered(t, key)
    requires r != [] && t != [] && r[0] in t && t[0] in r
    ensures r[0] == t[0]
  {
    var i :| 0 <= i < |t| && t[i] == r[0];
    var j :| 0 <= j < |r| && r[j] == t[0];
    var a, b := r[0], t[0];
    assert a == b || Before(key, a, b);
    assert b == a || Before(key, b, a);
  }

  /** Dropping a shared head keeps the tail of r inside the tail of t. */
  lemma TailInTail(r: seq<int>, t: seq<int>, key: int -> int)
    requires StrictlyOrdered(r, key) && StrictlyOrdered(t, key)
    requires r != [] && t != [] && r[0] == t[0]
    requires forall i :: 0 <= i < |r| ==> r[i] in t
    ensures forall k :: 0 <= k < |r| - 1 ==> r[1..][k] in t[1..]
  {
    forall k | 0 <= k < |r| - 1 ensures r[1..][k] in t[1..] {
      var x := r[k + 1];
      assert Before(key, r[0], x);
      assert x in t;
      var m :| 0 <= m < |t| && t[m] == x;
      assert m != 0;
      assert t[1..][m - 1] == x;
    }
  }

  lemma OrderedTail(r: seq<int>, key: int -> int)
    requires StrictlyOrdered(r, key) && r != []
    ensures StrictlyOrdered(r[1..], key)
  {
    forall i, j | 0 <= i < j < |r| - 1 ensures Before(key, r[1..][i], r[1..][j]) {
      assert r[1..][i] == r[i + 1] && r[1..][j] == r[j + 1];
    }
  }

  /** The order is total: two strictly ordered lists of the same keys are equal. */
  lemma {:induction false} StrictlyOrderedUnique(r: seq<int>, t: seq<int>, key: int -> int)
    requires StrictlyOrdered(r, key) && StrictlyOrdered(t, key)
    requires forall i :: 0 <= i < |r| ==> r[i] in t
    requires forall i :: 0 <= i < |t| ==> t[i] in r
    ensures r == t
    decreases |r|
  {
    if r != [] { assert r[0] in t; }
    if t != [] { assert t[0] in r; }
    if r != [] && t != [] {
      SameHead(r, t, key);
      TailInTail(r, t, key);
      TailInTail(t, r, key);
      OrderedTail(r, key);
      OrderedTail(t, key);
      StrictlyOrderedUnique(r[1..], t[1..], key);
      assert r == [r[0]] + r[1..] && t == [t[0]] + t[1..];
    }
  }

  // ---------------------------------------------------------------------------
  // Stable sort of rows by an integer id (Comparator.comparing(getId))
  // ---------------------------------------------------------------------------

  predicate SortedById<T>(s: seq<T>, id: T -> int) {
    forall i, j :: 0 <= i < j < |s| ==> id(s[i]) <= id(s[j])
  }

  function InsertById<T>(x: T, r: seq<T>, id: T -> int): seq<T> {
    if r == [] || id(x) <= id(r[0]) then [x] + r
    else [r[0]] + InsertById(x, r[1..], id)
  }

  function SortById<T>(s: seq<T>, id: T -> int): seq<T> {
    if s == [] then [] else InsertById(s[0], SortById(s[1..], id), id)
  }

  lemma {:induction false} InsertByIdPerm<T>(x: T, r: seq<T>, id: T -> int)
    ensures multiset(InsertById(x, r, id)) == multiset(r) + multiset{x}
    decreases r
  {
    if r != [] && id(x) > id(r[0]) {
      InsertByIdPerm(x, r[1..], id);
      assert r == [r[0]] + r[1..];
    }
  }

  lemma {:induction false} InsertByIdSorted<T>(x: T, r: seq<T>, id: T -> int)
    requires SortedById(r, id)
    ensures SortedById(InsertById(x, r, id), id)
    decreases r
  {
    if r == [] || id(x) <= id(r[0]) {
      var t := [x] + r;
      forall i, j | 0 <= i < j < |t| ensures id(t[i]) <= id(t[j]) {
        if i > 0 { assert t[i] == r[i - 1] && t[j] == r[j - 1]; }
        else if j > 1 { assert id(r[0]) <= id(r[j - 1]); }
      }
    } else {
      var rest := InsertById(x, r[1..], id);
      InsertByIdSorted(x, r[1..], id);
      InsertByIdPerm(x, r[1..], id);
      var t := [r[0]] + rest;
      forall i, j | 0 <= i < j < |t| ensures id(t[i]) <= id(t[j]) {
        if i == 0 {
          assert t[j] in multiset(rest);
          assert t[j] == x || t[j] in r[1..];
        }
      }
    }
  }

  /** Sorting by id yields a permutation in non-decreasing id order. */
  lemma {:induction false} SortByIdCorrect<T>(s: seq<T>, id: T -> int)
    ensures multiset(SortById(s, id)) == multiset(s)
    ensures SortedById(SortById(s, id), id)
    decreases s
  {
    if s != [] {
      SortByIdCorrect(s[1..], id);
      InsertByIdPerm(s[0], SortById(s[1..], id), id);
      InsertByIdSorted(s[0], SortById(s[1..], id), id);
      assert s == [s[0]] + s[1..];
    }
  }

  // ---------------------------------------------------------------------------
  // Sets built from lists
  // ---------------------------------------------------------------------------

  function Elements<T>(s: seq<T>): set<T> {
    set x | x in s
  }

  /** The distinct entries of a list, first occurrence first. */
  function Dedup<T(==)>(s: seq<T>): (r: seq<T>)
    ensures Distinct(r)
    ensures forall i :: 0 <= i < |r| ==> r[i] in s
    ensures forall i :: 0 <= i < |s| ==> s[i] in r
    decreases |s|
  {
    if s == [] then []
    else
      var r := Dedup(s[..|s| - 1]);
      assert s == s[..|s| - 1] + [s[|s| - 1]];
      if s[|s| - 1] in r then r else r + [s[|s| - 1]]
  }

  /** In a list without repeats, each entry occurs once. */
  lemma {:induction false} OnceWhenDistinct<T>(s: seq<T>, i: int)
    requires Distinct(s) && 0 <= i < |s|
    ensures multiset(s)[s[i]] == 1
    decreases |s|
  {
    var init, last := s[..|s| - 1], s[|s| - 1];
    assert s == init + [last];
    assert Distinct(init) by {
      forall a, b | 0 <= a < b < |init| ensures init[a] != init[b] {
        assert init[a] == s[a] && init[b] == s[b];
      }
    }
    if i == |s| - 1 {
      assert last !in init by {
        forall k | 0 <= k < |init| ensures init[k] != last {
          assert init[k] == s[k];
        }
      }
    } else {
      assert s[i] == init[i] && s[i] != last;
      OnceWhenDistinct(init, i);
    }
  }

  /** The same entry n times. */
  function Repeat<T>(x: T, n: nat): (r: seq<T>)
    ensures |r| == n
    ensures multiset(r) == multiset{}[x := n]
  {
    if n == 0 then [] else [x] + Repeat(x, n - 1)
  }

  /** The rows of a one-to-many outer join: each entry repeated `times` of
      itself, in list order. */
  function FanOut<T>(xs: seq<T>, times: T -> nat): seq<T>
    decreases |xs|
  {
    if xs == [] then [] else Repeat(xs[0], times(xs[0])) + FanOut(xs[1..], times)
  }

  /** In a fan-out of distinct entries, each occurs as often as its count. */
  lemma {:induction false} FanOutCount<T>(xs: seq<T>, times: T -> nat, x: T)
    requires Distinct(xs)
    ensures multiset(FanOut(xs, times))[x] == if x in xs then times(x) else 0
    decreases |xs|
  {
    if xs != [] {
      var rest := xs[1..];
      assert xs == [xs[0]] + rest;
      assert Distinct(rest) by {
        forall i, j | 0 <= i < j < |rest| ensures rest[i] != rest[j] {
          assert rest[i] == xs[i + 1] && rest[j] == xs[j + 1];
        }
      }
      forall k | 0 <= k < |rest| ensures rest[k] != xs[0] {
        assert rest[k] == xs[k + 1];
      }
      FanOutCount(rest, times, x);
    }
  }

  /** A list holds no more distinct elements than entries, and exactly as many
      when no entry repeats. */
  lemma {:induction false} ElementsCard<T>(s: seq<T>)
    ensures |Elements(s)| <= |s|
    ensures |Elements(s)| == |s| <==> Distinct(s)
    decreases s
  {
    if s != [] {
      var init, x := s[..|s| - 1], s[|s| - 1];
      ElementsCard(init);
      assert s == init + [x];
      assert Elements(s) == Elements(init) + {x};
      if x in init {
        assert Elements(s) == Elements(init);
        var k :| 0 <= k < |init| && init[k] == x;
        assert s[k] == s[|s| - 1];
      } else {
        assert Elements(s) - {x} == Elements(init);
        if Distinct(init) {
          forall i, j | 0 <= i < j < |s| ensures s[i] != s[j] {
            if j < |s| - 1 { assert s[i] == init[i] && s[j] == init[j]; }
            else { assert s[i] in init; }
          }
        } else {
          var i, j :| 0 <= i < j < |init| && init[i] == init[j];
          assert s[i] == s[j];
        }
      }
    }
  }

  /** |A * B| never exceeds |B|, and equals it exactly when B is inside A. */
  lemma IntersectionCard<T>(a: set<T>, b: set<T>)
    ensures |a * b| <= |b|
    ensures |a * b| == |b| <==> b <= a
  {
    assert b == (a * b) + (b - a);
    assert (a * b) * (b - a) == {};
    if !(b <= a) {
      var x :| x in b && x !in a;
      assert x in b - a;
    }
  }

  // ---------------------------------------------------------------------------
  // Java strings
  // ---------------------------------------------------------------------------

  /** Character.isWhitespace: the Unicode space, line and paragraph separators
      other than the no-break spaces, and the ASCII controls TAB..CR and FS..US. */
  predicate IsWhitespace(c: char) {
    || c == ' ' || ('\t' <= c <= '\r') || ('\U{001C}' <= c <= '\U{001F}')
    || c == '\U{1680}' || ('\U{2000}' <= c <= '\U{200A}' && c != '\U{2007}')
    || c == '\U{2028}' || c == '\U{2029}' || c == '\U{205F}' || c == '\U{3000}'
  }

  /** String.isBlank: empty or only whitespace. */
  predicate IsBlank(s: string) {
    forall i :: 0 <= i < |s| ==> IsWhitespace(s[i])
  }

  // ---------------------------------------------------------------------------
  // Decimal rendering of an int, as string concatenation does in messages
  // ---------------------------------------------------------------------------

  function DigitChar(d: int): (c: char)
    requires 0 <= d < 10
    ensures '0' <= c <= '9'
  {
    "0123456789"[d]
  }

  function NatToString(n: nat): (s: string)
    ensures |s| >= 1
    ensures forall i :: 0 <= i < |s| ==> '0' <= s[i] <= '9'
    decreases n
  {
    if n < 10 then [DigitChar(n)] else NatToString(n / 10) + [DigitChar(n % 10)]
  }

  function IntToString(n: int): (s: string)
    ensures |s| >= 1
    ensures (s[0] == '-') <==> n < 0
  {
    if n < 0 then "-" + NatToString(-n) else NatToString(n)
  }
}
