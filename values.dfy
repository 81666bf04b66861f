// url.Values, the multi-valued parameter map that both Sign and Validate
// work on: its Get, Add, Del and Encode methods, and the query parser
// (url.ParseQuery, which Request.URL.Query() applies to the raw query).
//
// Encode writes "key=value" pairs, keys escaped and in ascending byte order,
// the values of one key in their stored order, joined by '&'. The parser
// splits at '&', drops chunks that hold ';' (Go 1.17 and later), splits each
// chunk at its first '=', unescapes both halves, drops the chunk if either
// half fails to unescape, and appends the value under its key.

module UrlValues {
  import opened Wrappers
  import opened ByteStrings
  import opened QueryEscape

  /** The contents of a url.Values: each key with its list of values. */
  type Params = map<Bytes, seq<Bytes>>

  /** The values under key; Go reads a missing key as a nil (empty) slice. */
  function Lookup(m: Params, key: Bytes): seq<Bytes>
  {
    if key in m then m[key] else []
  }

  /** Values.Get: the first value under key, or "" when there is none. */
  function First(m: Params, key: Bytes): (r: Bytes)
    ensures key !in m || m[key] == [] ==> r == []
    ensures key in m && m[key] != [] ==> r == m[key][0]
  {
    var vs := Lookup(m, key);
    if vs == [] then [] else vs[0]
  }

  /**
   * After an Add, Get sees the added value only if the key had no value
   * before; every other key reads as it did.
   */
  lemma FirstAfterAppend(m: Params, key: Bytes, value: Bytes, k: Bytes)
    ensures First(Append(m, key, value), k) == if k == key && Lookup(m, key) == [] then value else First(m, k)
  {
  }

  /** m[key] = append(m[key], value), as Values.Add and the parser do. */
  function Append(m: Params, key: Bytes, value: Bytes): (r: Params)
    ensures r.Keys == m.Keys + {key}
    ensures r[key] == Lookup(m, key) + [value]
    ensures forall k :: k in m && k != key ==> r[k] == m[k]
  {
    m[key := Lookup(m, key) + [value]]
  }

  /** The keys that hold at least one value: all that an encoding can carry. */
  function NonEmpty(m: Params): Params
  {
    map k | k in m && m[k] != [] :: m[k]
  }

  // ---------------------------------------------------------------------
  // Encoding
  // ---------------------------------------------------------------------

  function KeyPairs(key: Bytes, vs: seq<Bytes>): (r: seq<(Bytes, Bytes)>)
  {
    seq(|vs|, i requires 0 <= i < |vs| => (key, vs[i]))
  }

  /** The (key, value) pairs of m for the keys ks, in the order of ks. */
  function Pairs(m: Params, ks: seq<Bytes>): seq<(Bytes, Bytes)>
    requires forall i :: 0 <= i < |ks| ==> ks[i] in m
  {
    if ks == [] then []
    else Pairs(m, ks[..|ks| - 1]) + KeyPairs(ks[|ks| - 1], m[ks[|ks| - 1]])
  }

  function Line(p: (Bytes, Bytes)): (r: Bytes)
    ensures r != [] && '&' !in r && ';' !in r
    ensures '#' !in r && '?' !in r
  {
    Escape(p.0) + "=" + Escape(p.1)
  }

  function Lines(ps: seq<(Bytes, Bytes)>): (r: seq<Bytes>)
    ensures |r| == |ps|
  {
    seq(|ps|, i requires 0 <= i < |ps| => Line(ps[i]))
  }

  /** What Values.Encode returns for m: its pairs under the ascending key order. */
  ghost function Encoded(m: Params): Bytes
  {
    Join(Lines(Pairs(m, SortedKeys(m.Keys))))
  }

  // ---------------------------------------------------------------------
  // Parsing
  // ---------------------------------------------------------------------

  /** One '&'-separated chunk of a raw query, added to the map built so far. */
  function ParseChunk(acc: Params, chunk: Bytes): (r: Params)
    ensures ';' in chunk || chunk == [] ==> r == acc
    ensures forall k :: k in acc ==> k in r && acc[k] <= r[k]
    ensures forall k :: k in r && k !in acc ==> r[k] != []
  {
    if ';' in chunk || chunk == [] then acc
    else
      var (rawKey, rawValue) := Cut(chunk, '=');
      match (Unescape(rawKey), Unescape(rawValue))
      case (Some(key), Some(value)) => Append(acc, key, value)
      case _ => acc
  }

  function ParseInto(acc: Params, query: Bytes): (r: Params)
    ensures forall k :: k in acc ==> k in r && acc[k] <= r[k]
    ensures (forall k :: k in acc ==> acc[k] != []) ==> forall k :: k in r ==> r[k] != []
    decreases |query|
  {
    if query == [] then acc
    else
      var (chunk, rest) := Cut(query, '&');
      ParseInto(ParseChunk(acc, chunk), rest)
  }

  /** url.ParseQuery, keeping what it parsed and ignoring the error it reports. */
  function ParseQuery(query: Bytes): (r: Params)
    ensures query == [] ==> r == map[]
    ensures forall k :: k in r ==> r[k] != []
  {
    ParseInto(map[], query)
  }

  // ---------------------------------------------------------------------
  // Proof vocabulary: folds over chunks and pairs
  // ---------------------------------------------------------------------

  ghost function FoldChunks(acc: Params, chunks: seq<Bytes>): Params
    decreases |chunks|
  {
    if chunks == [] then acc else FoldChunks(ParseChunk(acc, chunks[0]), chunks[1..])
  }

  ghost function AppendAll(acc: Params, ps: seq<(Bytes, Bytes)>): Params
  {
    if ps == [] then acc
    else Append(AppendAll(acc, ps[..|ps| - 1]), ps[|ps| - 1].0, ps[|ps| - 1].1)
  }

  /** The keys of ks that hold a value in m, in the order of ks. */
  ghost function Filled(m: Params, ks: seq<Bytes>): seq<Bytes>
    requires forall i :: 0 <= i < |ks| ==> ks[i] in m
  {
    if ks == [] then []
    else Filled(m, ks[..|ks| - 1]) + (if m[ks[|ks| - 1]] != [] then [ks[|ks| - 1]] else [])
  }

  lemma {:induction false} CutAt(x: Bytes, sep: Byte, y: Bytes)
    requires sep !in x
    ensures Cut(x + [sep] + y, sep) == (x, y)
  {
    if x != [] {
      assert (x + [sep] + y)[1..] == x[1..] + [sep] + y;
      CutAt(x[1..], sep, y);
      assert [x[0]] + x[1..] == x;
    } else {
      assert (x + [sep] + y)[1..] == y;
    }
  }

  /** A written pair parses back to the key and value it was written from. */
  lemma ParseLine(acc: Params, p: (Bytes, Bytes))
    ensures ParseChunk(acc, Line(p)) == Append(acc, p.0, p.1)
  {
    CutAt(Escape(p.0), '=', Escape(p.1));
    UnescapeEscape(p.0);
    UnescapeEscape(p.1);
  }

  /** A chunk "key=value" whose two sides decode to themselves parses to them. */
  lemma ParseRawPair(acc: Params, key: Bytes, value: Bytes)
    requires '=' !in key && ';' !in key && ';' !in value
    requires Unescape(key) == Some(key) && Unescape(value) == Some(value)
    ensures ParseChunk(acc, key + "=" + value) == Append(acc, key, value)
  {
    CutAt(key, '=', value);
  }

  lemma {:induction false} ParseJoin(acc: Params, chunks: seq<Bytes>)
    requires forall i :: 0 <= i < |chunks| ==> '&' !in chunks[i]
    ensures ParseInto(acc, Join(chunks)) == FoldChunks(acc, chunks)
    decreases |chunks|
  {
    if |chunks| == 1 {
      if chunks[0] != [] {
        assert Cut(chunks[0], '&') == (chunks[0], []);
      }
    } else if |chunks| > 1 {
      CutAt(chunks[0], '&', Join(chunks[1..]));
      ParseJoin(ParseChunk(acc, chunks[0]), chunks[1..]);
    }
  }

  lemma {:induction false} FoldChunksConcat(acc: Params, a: seq<Bytes>, b: seq<Bytes>)
    ensures FoldChunks(acc, a + b) == FoldChunks(FoldChunks(acc, a), b)
    decreases |a|
  {
    if a != [] {
      assert (a + b)[1..] == a[1..] + b;
      FoldChunksConcat(ParseChunk(acc, a[0]), a[1..], b);
    } else {
      assert a + b == b;
    }
  }

  lemma {:induction false} FoldLines(acc: Params, ps: seq<(Bytes, Bytes)>)
    ensures FoldChunks(acc, Lines(ps)) == AppendAll(acc, ps)
  {
    if ps != [] {
      var init, last := ps[..|ps| - 1], ps[|ps| - 1];
      assert Lines(ps) == Lines(init) + [Line(last)];
      FoldChunksConcat(acc, Lines(init), [Line(last)]);
      FoldLines(acc, init);
      ParseLine(AppendAll(acc, init), last);
    }
  }

  lemma {:induction false} AppendAllConcat(acc: Params, a: seq<(Bytes, Bytes)>, b: seq<(Bytes, Bytes)>)
    ensures AppendAll(acc, a + b) == AppendAll(AppendAll(acc, a), b)
    decreases |b|
  {
    if b == [] {
      assert a + b == a;
    } else {
      assert (a + b)[..|a + b| - 1] == a + b[..|b| - 1];
      AppendAllConcat(acc, a, b[..|b| - 1]);
    }
  }

  lemma {:induction false} AppendKeyPairs(acc: Params, key: Bytes, vs: seq<Bytes>)
    ensures AppendAll(acc, KeyPairs(key, vs)) == if vs == [] then acc else acc[key := Lookup(acc, key) + vs]
  {
    if vs != [] {
      var init, v := vs[..|vs| - 1], vs[|vs| - 1];
      var kp := KeyPairs(key, vs);
      assert kp[..|kp| - 1] == KeyPairs(key, init);
      assert kp[|kp| - 1] == (key, v);
      AppendKeyPairs(acc, key, init);
      var before := AppendAll(acc, KeyPairs(key, init));
      assert Lookup(before, key) == Lookup(acc, key) + init;
      assert Lookup(acc, key) + init + [v] == Lookup(acc, key) + vs by {
        assert init + [v] == vs;
      }
    }
  }

  /** The part of m under the keys in ks that hold values. */
  ghost function Present(m: Params, ks: set<Bytes>): Params
  {
    map k | k in ks && k in m && m[k] != [] :: m[k]
  }

  lemma PresentStep(m: Params, ks: set<Bytes>, key: Bytes)
    requires key in m && key !in ks
    ensures key !in Present(m, ks)
    ensures Present(m, ks + {key}) ==
              if m[key] == [] then Present(m, ks) else Present(m, ks)[key := m[key]]
  {
  }

  /** Appending the pairs of distinct keys rebuilds those keys that have values. */
  lemma {:induction false} AppendPairs(m: Params, ks: seq<Bytes>)
    requires forall i :: 0 <= i < |ks| ==> ks[i] in m
    requires StrictlySorted(ks)
    ensures AppendAll(map[], Pairs(m, ks)) == Present(m, Elems(ks))
  {
    if ks != [] {
      var init, last := ks[..|ks| - 1], ks[|ks| - 1];
      SortedSplit(ks);
      AppendPairs(m, init);
      AppendLastKey(m, ks);
      AppendToPresent(m, Elems(init), last);
    }
  }

  lemma AppendLastKey(m: Params, ks: seq<Bytes>)
    requires ks != [] && forall i :: 0 <= i < |ks| ==> ks[i] in m
    ensures var init, last := ks[..|ks| - 1], ks[|ks| - 1];
            AppendAll(map[], Pairs(m, ks)) ==
              AppendAll(AppendAll(map[], Pairs(m, init)), KeyPairs(last, m[last]))
  {
    var init, last := ks[..|ks| - 1], ks[|ks| - 1];
    AppendAllConcat(map[], Pairs(m, init), KeyPairs(last, m[last]));
  }

  lemma AppendToPresent(m: Params, keys: set<Bytes>, key: Bytes)
    requires key in m && key !in keys
    ensures AppendAll(Present(m, keys), KeyPairs(key, m[key])) == Present(m, keys + {key})
  {
    var before := Present(m, keys);
    AppendKeyPairs(before, key, m[key]);
    PresentStep(m, keys, key);
    assert Lookup(before, key) + m[key] == m[key];
  }

  /** The last key of an ascending sequence is new to the rest of it. */
  lemma SortedSplit(ks: seq<Bytes>)
    requires ks != [] && StrictlySorted(ks)
    ensures StrictlySorted(ks[..|ks| - 1])
    ensures ks[|ks| - 1] !in Elems(ks[..|ks| - 1])
    ensures Elems(ks) == Elems(ks[..|ks| - 1]) + {ks[|ks| - 1]}
  {
    var init, last := ks[..|ks| - 1], ks[|ks| - 1];
    forall i | 0 <= i < |init| ensures init[i] != last {
      assert Less(ks[i], ks[|ks| - 1]);
    }
    assert ks == init + [last];
  }

  lemma {:induction false} FilledKeys(m: Params, ks: seq<Bytes>)
    requires forall i :: 0 <= i < |ks| ==> ks[i] in m
    ensures forall i :: 0 <= i < |Filled(m, ks)| ==> Filled(m, ks)[i] in NonEmpty(m)
    ensures Elems(Filled(m, ks)) == set k | k in Elems(ks) && m[k] != []
  {
    if ks != [] {
      var init, last := ks[..|ks| - 1], ks[|ks| - 1];
      FilledKeys(m, init);
      var f := Filled(m, init);
      var tail := if m[last] != [] then [last] else [];
      assert Filled(m, ks) == f + tail;
      assert Elems(f + tail) == Elems(f) + Elems(tail);
      assert Elems(ks) == Elems(init) + {last} by { assert ks == init + [last]; }
      assert forall i :: 0 <= i < |f| ==> f[i] in Elems(f);
      assert forall i :: 0 <= i < |f + tail| ==> (f + tail)[i] in Elems(f + tail);
    }
  }

  lemma {:induction false} FilledSorted(m: Params, ks: seq<Bytes>)
    requires forall i :: 0 <= i < |ks| ==> ks[i] in m
    requires StrictlySorted(ks)
    ensures StrictlySorted(Filled(m, ks))
  {
    if ks != [] {
      var init, last := ks[..|ks| - 1], ks[|ks| - 1];
      FilledSorted(m, init);
      FilledKeys(m, init);
      var f := Filled(m, init);
      if m[last] != [] {
        forall i | 0 <= i < |f| ensures Less(f[i], last) {
          assert f[i] in Elems(f);
          var j :| 0 <= j < |init| && init[j] == f[i];
          assert Less(ks[j], ks[|ks| - 1]);
        }
      }
    }
  }

  lemma {:induction false} PairsFilled(m: Params, ks: seq<Bytes>)
    requires forall i :: 0 <= i < |ks| ==> ks[i] in m
    ensures forall i :: 0 <= i < |Filled(m, ks)| ==> Filled(m, ks)[i] in NonEmpty(m)
    ensures Pairs(m, ks) == Pairs(NonEmpty(m), Filled(m, ks))
  {
    FilledKeys(m, ks);
    if ks != [] {
      var init, last := ks[..|ks| - 1], ks[|ks| - 1];
      PairsFilled(m, init);
      var f := Filled(m, init);
      assert Pairs(m, ks) == Pairs(m, init) + KeyPairs(last, m[last]);
      if m[last] != [] {
        assert Filled(m, ks) == f + [last];
        assert (f + [last])[..|f|] == f;
        assert Pairs(NonEmpty(m), f + [last]) == Pairs(NonEmpty(m), f) + KeyPairs(last, m[last]);
      } else {
        assert Filled(m, ks) == f;
        assert KeyPairs(last, m[last]) == [];
      }
    }
  }

  // ---------------------------------------------------------------------
  // What the encoding promises
  // ---------------------------------------------------------------------

  /**
   * The encoding does not depend on the order in which the map's keys are
   * visited: any ascending enumeration of the keys writes the same string.
   */
  lemma EncodedAnyEnumeration(m: Params, ks: seq<Bytes>)
    requires StrictlySorted(ks) && Elems(ks) == m.Keys
    ensures forall i :: 0 <= i < |ks| ==> ks[i] in m
    ensures Join(Lines(Pairs(m, ks))) == Encoded(m)
  {
    SortedUnique(ks, SortedKeys(m.Keys));
  }

  /** A key with no values writes nothing. */
  lemma EncodedNonEmpty(m: Params)
    ensures Encoded(NonEmpty(m)) == Encoded(m)
  {
    var ks := SortedKeys(m.Keys);
    PairsFilled(m, ks);
    FilledSorted(m, ks);
    var f := Filled(m, ks);
    FilledElems(m, ks);
    SortedUnique(f, SortedKeys(NonEmpty(m).Keys));
  }

  lemma FilledElems(m: Params, ks: seq<Bytes>)
    requires Elems(ks) == m.Keys
    ensures forall i :: 0 <= i < |ks| ==> ks[i] in m
    ensures Elems(Filled(m, ks)) == NonEmpty(m).Keys
  {
    FilledKeys(m, ks);
    var e := Elems(Filled(m, ks));
    forall k ensures k in e <==> k in NonEmpty(m) {
    }
  }

  /** The pieces of an encoding, for callers that append to it. */
  lemma EncodedLines(m: Params)
    ensures var ks := SortedKeys(m.Keys);
            && (forall i :: 0 <= i < |ks| ==> ks[i] in m)
            && Encoded(m) == Join(Lines(Pairs(m, ks)))
            && ParseInto(map[], Encoded(m)) == FoldChunks(map[], Lines(Pairs(m, ks)))
  {
    ParseJoin(map[], Lines(Pairs(m, SortedKeys(m.Keys))));
  }

  /** Parsing an encoding gives back the map, less the keys that had no values. */
  lemma ParseEncoded(m: Params)
    ensures ParseQuery(Encoded(m)) == NonEmpty(m)
  {
    var ks := SortedKeys(m.Keys);
    EncodedLines(m);
    FoldLines(map[], Pairs(m, ks));
    AppendPairs(m, ks);
    PresentAll(m);
  }

  /** A map with a key that holds a value encodes to at least one pair. */
  lemma EncodedSomeLine(m: Params, filled: Bytes)
    requires filled in m && m[filled] != []
    ensures var ks := SortedKeys(m.Keys);
            && (forall i :: 0 <= i < |ks| ==> ks[i] in m)
            && Lines(Pairs(m, ks)) != []
            && Encoded(m) == Join(Lines(Pairs(m, ks)))
            && FoldChunks(map[], Lines(Pairs(m, ks))) == NonEmpty(m)
  {
    EncodedLines(m);
    ParseEncoded(m);
    assert filled in ParseQuery(Encoded(m));
    assert Join(Lines(Pairs(m, SortedKeys(m.Keys)))) != [];
  }

  /**
   * One more chunk after a non-empty encoding is parsed on top of what the
   * encoding parses to.
   */
  lemma ParseEncodedThen(m: Params, filled: Bytes, chunk: Bytes)
    requires '&' !in chunk
    requires filled in m && m[filled] != []
    ensures ParseQuery(Encoded(m) + "&" + chunk) == ParseChunk(NonEmpty(m), chunk)
  {
    EncodedSomeLine(m, filled);
    var ls := Lines(Pairs(m, SortedKeys(m.Keys)));
    assert forall i :: 0 <= i < |ls| ==> '&' !in ls[i];
    ParseJoinThen(ls, chunk);
  }

  /** Parsing chunks joined by '&', then one more chunk. */
  lemma ParseJoinThen(chunks: seq<Bytes>, chunk: Bytes)
    requires chunks != [] && forall i :: 0 <= i < |chunks| ==> '&' !in chunks[i]
    requires '&' !in chunk
    ensures ParseQuery(Join(chunks) + "&" + chunk) == ParseChunk(FoldChunks(map[], chunks), chunk)
  {
    JoinAppend(chunks, chunk);
    ParseJoin(map[], chunks + [chunk]);
    FoldChunksConcat(map[], chunks, [chunk]);
  }

  /**
   * An encoding followed by one more "key=value" chunk, whose key is new and
   * whose two sides decode to themselves, parses to the encoded map (less
   * its empty keys) with that one value under the key.
   */
  lemma ParseEncodedThenPair(m: Params, filled: Bytes, key: Bytes, value: Bytes)
    requires filled in m && m[filled] != [] && key !in m
    requires '=' !in key && ';' !in key && '&' !in key && ';' !in value && '&' !in value
    requires '%' !in key && '+' !in key && '%' !in value && '+' !in value
    ensures ParseQuery(Encoded(m) + "&" + (key + "=" + value)) == NonEmpty(m)[key := [value]]
  {
    assert Unescape(key) == Some(key) && Unescape(value) == Some(value);
    var chunk := key + "=" + value;
    var ne := NonEmpty(m);
    assert '&' !in chunk;
    ParseEncodedThen(m, filled, chunk);
    ParseRawPair(ne, key, value);
    assert Lookup(ne, key) + [value] == [value];
  }

  /** An encoding holds no '#' and no '?': it never ends a URL's query early. */
  lemma EncodedPlain(m: Params)
    ensures '#' !in Encoded(m) && '?' !in Encoded(m)
  {
    EncodedLines(m);
    var ls := Lines(Pairs(m, SortedKeys(m.Keys)));
    JoinAvoids(ls, '#');
    JoinAvoids(ls, '?');
  }

  lemma PresentAll(m: Params)
    ensures Present(m, m.Keys) == NonEmpty(m)
  {
  }

  lemma PairsPrefix(m: Params, ks: seq<Bytes>, i: nat)
    requires i < |ks| && forall j :: 0 <= j < |ks| ==> ks[j] in m
    ensures Pairs(m, ks[..i + 1]) == Pairs(m, ks[..i]) + KeyPairs(ks[i], m[ks[i]])
  {
    assert ks[..i + 1][..i] == ks[..i];
  }

  /** Writing one more pair extends the buffer as Encode's loop does. */
  lemma WritePair(done: seq<(Bytes, Bytes)>, k: Bytes, vs: seq<Bytes>, j: nat)
    requires j < |vs|
    ensures var s := Join(Lines(done + KeyPairs(k, vs[..j])));
            Join(Lines(done + KeyPairs(k, vs[..j + 1]))) ==
              (if |s| > 0 then s + "&" else s) + Escape(k) + "=" + Escape(vs[j])
  {
    var before := done + KeyPairs(k, vs[..j]);
    var p := (k, vs[j]);
    KeyPairsSnoc(k, vs, j);
    assert done + KeyPairs(k, vs[..j + 1]) == before + [p];
    LinesSnoc(before, p);
    JoinLine(Lines(before), Line(p));
    AppendLine(Join(Lines(before)), p);
    AppendLine(Join(Lines(before)) + "&", p);
  }

  lemma AppendLine(s: Bytes, p: (Bytes, Bytes))
    ensures s + Line(p) == s + Escape(p.0) + "=" + Escape(p.1)
  {
  }

  lemma KeyPairsSnoc(k: Bytes, vs: seq<Bytes>, j: nat)
    requires j < |vs|
    ensures KeyPairs(k, vs[..j + 1]) == KeyPairs(k, vs[..j]) + [(k, vs[j])]
  {
  }

  lemma JoinLine(lines: seq<Bytes>, line: Bytes)
    requires forall i :: 0 <= i < |lines| ==> lines[i] != []
    ensures var s := Join(lines);
            Join(lines + [line]) == (if |s| > 0 then s + "&" else s) + line
  {
    JoinEmpty(lines);
    JoinAppend(lines, line);
  }

  lemma LinesSnoc(ps: seq<(Bytes, Bytes)>, p: (Bytes, Bytes))
    ensures Lines(ps + [p]) == Lines(ps) + [Line(p)]
  {
  }

  /**
   * The inner loop of Values.Encode: the values of one key appended to the
   * buffer, each as "key=value", with '&' before every pair but the first.
   */
  method WriteValues(buf: Bytes, ghost done: seq<(Bytes, Bytes)>, key: Bytes, vs: seq<Bytes>)
    returns (s: Bytes)
    requires buf == Join(Lines(done))
    ensures s == Join(Lines(done + KeyPairs(key, vs)))
  {
    s := buf;
    var escapedKey := Escape(key);
    assert done + KeyPairs(key, vs[..0]) == done;
    var j := 0;
    while j < |vs|
      invariant 0 <= j <= |vs|
      invariant s == Join(Lines(done + KeyPairs(key, vs[..j])))
    {
      WritePair(done, key, vs, j);
      var sep := if |s| > 0 then s + "&" else s;
      s := sep + escapedKey + "=" + Escape(vs[j]);
      j := j + 1;
    }
    assert vs[..j] == vs;
  }

  // ---------------------------------------------------------------------
  // The mutable map
  // ---------------------------------------------------------------------

  /** url.Values: Go maps are references, so a Values is an object. */
  class Values {
    var m: Params

    constructor (m0: Params)
      ensures m == m0
    {
      m := m0;
    }

    /** Values.Get: the first value under key, or "". */
    function Get(key: Bytes): (r: Bytes)
      reads this
      ensures key !in m || m[key] == [] ==> r == []
      ensures key in m && m[key] != [] ==> r == m[key][0]
    {
      First(m, key)
    }

    /** Values.Add: appends value to the list under key. */
    method Add(key: Bytes, value: Bytes)
      modifies this
      ensures m == Append(old(m), key, value)
    {
      m := m[key := Lookup(m, key) + [value]];
    }

    /** Values.Del: removes key and all its values. */
    method Del(key: Bytes)
      modifies this
      ensures m == old(m) - {key}
    {
      m := m - {key};
    }

    /**
     * The keys, collected in whatever order the map yields them (any order:
     * the choice below is arbitrary) and each placed in ascending order.
     */
    method SortedKeyList() returns (keys: seq<Bytes>)
      ensures StrictlySorted(keys) && Elems(keys) == m.Keys
    {
      keys := [];
      var rest := m.Keys;
      while rest != {}
        invariant StrictlySorted(keys)
        invariant Elems(keys) + rest == m.Keys && Elems(keys) !! rest
        decreases |rest|
      {
        var k :| k in rest;
        keys := InsertSorted(keys, k);
        rest := rest - {k};
      }
    }

    /**
     * Values.Encode: the keys are collected in whatever order the map
     * yields them (any order: the choice below is arbitrary), put in
     * ascending order, and each key's values written in stored order.
     */
    method Encode() returns (s: Bytes)
      ensures s == Encoded(m)
    {
      if |m| == 0 {
        assert SortedKeys(m.Keys) == [];
        return [];
      }
      var v := m;
      var keys := SortedKeyList();
      EncodedAnyEnumeration(v, keys);
      s := [];
      var i := 0;
      while i < |keys|
        invariant 0 <= i <= |keys|
        invariant s == Join(Lines(Pairs(v, keys[..i])))
      {
        PairsPrefix(v, keys, i);
        s := WriteValues(s, Pairs(v, keys[..i]), keys[i], v[keys[i]]);
        i := i + 1;
      }
      assert keys[..i] == keys;
    }
  }
}
