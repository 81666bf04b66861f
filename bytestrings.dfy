// Go strings are byte sequences; the model keeps them as sequences of
// characters below 256, so that literals such as "apikey" read naturally.
// This module holds the byte-string vocabulary shared by the other modules:
// the byte-wise order Go's sort.Strings uses, and the first-separator split
// (strings.Cut) and separator join that the query codec is built from.

module Wrappers {
  datatype Option<+T> = None | Some(value: T)
}

module ByteStrings {

  type Byte = c: char | c as int < 256 witness 'a'
  type Bytes = seq<Byte>

  /** The set of elements of a sequence. */
  function Elems<T>(s: seq<T>): set<T>
  {
    set x | x in s
  }

  // ---------------------------------------------------------------------
  // Byte-wise lexicographic order (Go's `<` on strings)
  // ---------------------------------------------------------------------

  /** a <= b, comparing byte by byte; a proper prefix comes first. */
  predicate Below(a: Bytes, b: Bytes)
  {
    if a == [] then true
    else if b == [] then false
    else a[0] < b[0] || (a[0] == b[0] && Below(a[1..], b[1..]))
  }

  predicate Less(a: Bytes, b: Bytes)
  {
    Below(a, b) && a != b
  }

  lemma {:induction false} BelowReflexive(a: Bytes)
    ensures Below(a, a)
  {
    if a != [] { BelowReflexive(a[1..]); }
  }

  lemma {:induction false} BelowTotal(a: Bytes, b: Bytes)
    ensures Below(a, b) || Below(b, a)
  {
    if a != [] && b != [] && a[0] == b[0] {
      BelowTotal(a[1..], b[1..]);
    }
  }

  lemma {:induction false} BelowAntisymmetric(a: Bytes, b: Bytes)
    requires Below(a, b) && Below(b, a)
    ensures a == b
  {
    if a != [] && b != [] {
      BelowAntisymmetric(a[1..], b[1..]);
      assert a == [a[0]] + a[1..];
      assert b == [b[0]] + b[1..];
    }
  }

  lemma {:induction false} BelowTransitive(a: Bytes, b: Bytes, c: Bytes)
    requires Below(a, b) && Below(b, c)
    ensures Below(a, c)
  {
    if a != [] && b != [] && c != [] && a[0] == b[0] && b[0] == c[0] {
      BelowTransitive(a[1..], b[1..], c[1..]);
    }
  }

  /** Every key of the sequence is strictly below every later one. */
  ghost predicate StrictlySorted(s: seq<Bytes>)
  {
    forall i, j :: 0 <= i < j < |s| ==> Less(s[i], s[j])
  }

  ghost predicate IsLeast(k: Bytes, keys: set<Bytes>)
  {
    k in keys && forall j :: j in keys ==> Below(k, j)
  }

  lemma {:induction false} LeastExists(keys: set<Bytes>)
    requires keys != {}
    ensures exists k :: IsLeast(k, keys)
    decreases keys
  {
    var x :| x in keys;
    BelowReflexive(x);
    if keys != {x} {
      LeastExists(keys - {x});
      var y :| IsLeast(y, keys - {x});
      BelowTotal(x, y);
      if Below(x, y) {
        forall j | j in keys ensures Below(x, j) {
          if j != x { BelowTransitive(x, y, j); }
        }
        assert IsLeast(x, keys);
      } else {
        assert IsLeast(y, keys);
      }
    } else {
      assert IsLeast(x, keys);
    }
  }

  /**
   * The keys of a finite set in ascending order: the one enumeration that
   * every map iteration order sorts to.
   */
  ghost function SortedKeys(keys: set<Bytes>): (r: seq<Bytes>)
    ensures StrictlySorted(r) && Elems(r) == keys
    decreases keys
  {
    if keys == {} then []
    else
      LeastExists(keys);
      var k :| IsLeast(k, keys);
      var rest := SortedKeys(keys - {k});
      assert forall j :: 0 <= j < |rest| ==> rest[j] in Elems(rest);
      assert Elems([k] + rest) == {k} + Elems(rest);
      [k] + rest
  }

  /** Two ascending enumerations of the same set are the same sequence. */
  lemma {:induction false} SortedUnique(a: seq<Bytes>, b: seq<Bytes>)
    requires StrictlySorted(a) && StrictlySorted(b)
    requires Elems(a) == Elems(b)
    ensures a == b
  {
    if a == [] {
      assert forall i :: 0 <= i < |b| ==> b[i] in Elems(a);
    } else {
      assert b != [] by { assert a[0] in Elems(a); }
      assert a[0] in Elems(b);
      assert b[0] in Elems(a);
      if a[0] != b[0] {
        var i :| 0 <= i < |a| && a[i] == b[0];
        var j :| 0 <= j < |b| && b[j] == a[0];
        assert Less(a[0], a[i]);
        assert Less(b[0], b[j]);
        BelowAntisymmetric(a[0], b[0]);
        assert false;
      }
      assert a[0] !in Elems(a[1..]);
      assert b[0] !in Elems(b[1..]);
      assert Elems(a) == {a[0]} + Elems(a[1..]) by { assert a == [a[0]] + a[1..]; }
      assert Elems(b) == {b[0]} + Elems(b[1..]) by { assert b == [b[0]] + b[1..]; }
      SortedUnique(a[1..], b[1..]);
      assert a == [a[0]] + a[1..] && b == [b[0]] + b[1..];
    }
  }

  /** Places k in an ascending sequence that does not hold it yet. */
  function InsertSorted(s: seq<Bytes>, k: Bytes): (r: seq<Bytes>)
    requires StrictlySorted(s) && k !in s
    ensures StrictlySorted(r) && Elems(r) == Elems(s) + {k}
  {
    if s == [] then [k]
    else if Less(k, s[0]) then
      assert forall j :: 0 <= j < |s| ==> Less(k, s[j]) by {
        forall j | 0 <= j < |s| ensures Less(k, s[j]) {
          if j > 0 {
            BelowTransitive(k, s[0], s[j]);
          }
        }
      }
      [k] + s
    else
      BelowTotal(k, s[0]);
      var rest := InsertSorted(s[1..], k);
      assert Elems(s) == {s[0]} + Elems(s[1..]) by { assert s == [s[0]] + s[1..]; }
      assert forall j :: 0 <= j < |rest| ==> rest[j] in Elems(rest);
      [s[0]] + rest
  }

  // ---------------------------------------------------------------------
  // Splitting and joining on a separator byte
  // ---------------------------------------------------------------------

  /**
   * strings.Cut with a one-byte separator: the text before the first
   * separator and the text after it; with no separator, the whole input
   * and nothing.
   */
  function Cut(s: Bytes, sep: Byte): (r: (Bytes, Bytes))
    ensures sep !in r.0
    ensures sep in s ==> s == r.0 + [sep] + r.1
    ensures sep !in s ==> r == (s, [])
    ensures s != [] ==> |r.1| < |s|
  {
    if s == [] then ([], [])
    else if s[0] == sep then ([], s[1..])
    else
      var (before, after) := Cut(s[1..], sep);
      assert s == [s[0]] + s[1..];
      ([s[0]] + before, after)
  }

  /** The parts separated by '&', as url.Values.Encode writes its pairs. */
  function Join(parts: seq<Bytes>): Bytes
  {
    if parts == [] then []
    else if |parts| == 1 then parts[0]
    else parts[0] + "&" + Join(parts[1..])
  }

  lemma {:induction false} JoinAppend(parts: seq<Bytes>, x: Bytes)
    ensures Join(parts + [x]) == if parts == [] then x else Join(parts) + "&" + x
  {
    if |parts| > 1 {
      assert (parts + [x])[1..] == parts[1..] + [x];
      JoinAppend(parts[1..], x);
    } else if |parts| == 1 {
      assert (parts + [x])[1..] == [x];
    }
  }

  /** A byte other than '&' is in a join only if it is in one of the parts. */
  lemma {:induction false} JoinAvoids(parts: seq<Bytes>, c: Byte)
    requires c != '&' && forall i :: 0 <= i < |parts| ==> c !in parts[i]
    ensures c !in Join(parts)
  {
    if |parts| > 1 {
      JoinAvoids(parts[1..], c);
    }
  }

  lemma {:induction false} JoinEmpty(parts: seq<Bytes>)
    requires forall i :: 0 <= i < |parts| ==> parts[i] != []
    ensures Join(parts) == [] <==> parts == []
  {
  }
}
