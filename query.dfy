/**
 * The part of Go's net/url package that the hook serialiser uses:
 * url.Values with Set and Encode, and QueryEscape, which percent-encodes
 * as in section 2.1 of RFC 3986, keeps the unreserved characters of
 * section 2.3 and writes a space as '+' (the form encoding of section
 * 17.13.4.1 of HTML 4.01).
 *
 * Parse is the reading side (url.ParseQuery with QueryUnescape), given
 * here as the inverse that an encoded body is meant to have.
 */
module Query {
  import opened Wrappers
  import opened ByteStrings

  /**
   * url.Values. Go keeps a list of values per key; Set replaces that list
   * by a single value, and the serialiser only ever calls Set, so the model
   * keeps one value per key.
   */
  type Values = map<Bytes, Bytes>

  const Ampersand: byte := '&'
  const EqualsSign: byte := '='
  const Percent: byte := '%'
  const Plus: byte := '+'
  const Space: byte := ' '

  // ---------------------------------------------------------------------
  // QueryEscape and QueryUnescape
  // ---------------------------------------------------------------------

  /** The unreserved characters of section 2.3 of RFC 3986: letters, digits and "-._~". */
  predicate Unreserved(c: byte)
  {
    || 'a' <= c <= 'z'
    || 'A' <= c <= 'Z'
    || '0' <= c <= '9'
    || c == '-' || c == '_' || c == '.' || c == '~'
  }

  predicate AllUnreserved(s: Bytes)
  {
    forall c :: c in s ==> Unreserved(c)
  }

  predicate IsHex(c: byte)
  {
    '0' <= c <= '9' || 'a' <= c <= 'f' || 'A' <= c <= 'F'
  }

  function HexValue(c: byte): (d: nat)
    requires IsHex(c)
    ensures d < 16
  {
    if '0' <= c <= '9' then c as int - '0' as int
    else if 'a' <= c <= 'f' then c as int - 'a' as int + 10
    else c as int - 'A' as int + 10
  }

  /** The upper-case hexadecimal digit that QueryEscape writes for d. */
  function UpperHex(d: nat): (c: byte)
    requires d < 16
    ensures IsHex(c) && HexValue(c) == d
  {
    if d < 10 then ('0' as int + d) as char else ('A' as int + d - 10) as char
  }

  /** What QueryEscape writes for one byte. */
  function EscapeByte(c: byte): (r: Bytes)
  {
    if Unreserved(c) then [c]
    else if c == Space then [Plus]
    else [Percent, UpperHex(c as int / 16), UpperHex(c as int % 16)]
  }

  /** A text that can sit between '&' and '=' without being mistaken for either. */
  predicate Separable(s: Bytes)
  {
    Ampersand !in s && EqualsSign !in s
  }

  /** url.QueryEscape. */
  function Escape(s: Bytes): (r: Bytes)
    ensures Separable(r)
    ensures |r| >= |s|
  {
    if s == [] then [] else EscapeByte(s[0]) + Escape(s[1..])
  }

  /** QueryEscape leaves a text made of unreserved characters as it is. */
  lemma {:induction false} EscapeUnreserved(s: Bytes)
    requires AllUnreserved(s)
    ensures Escape(s) == s
  {
    if s != [] {
      EscapeUnreserved(s[1..]);
      assert [s[0]] + s[1..] == s;
    }
  }

  /** QueryEscape changes every text that holds a reserved character. */
  lemma {:induction false} EscapeChangesReserved(s: Bytes, i: nat)
    requires i < |s| && !Unreserved(s[i])
    ensures Escape(s) != s
  {
    if !Unreserved(s[0]) {
      if s[0] == Space {
        assert Escape(s)[0] == Plus;
      } else {
        assert |Escape(s)| == 3 + |Escape(s[1..])|;
      }
    } else {
      EscapeChangesReserved(s[1..], i - 1);
      assert Escape(s) == [s[0]] + Escape(s[1..]);
      assert s == [s[0]] + s[1..];
    }
  }

  /** Escaping works byte by byte, so it distributes over concatenation. */
  lemma {:induction false} EscapeConcat(a: Bytes, b: Bytes)
    ensures Escape(a + b) == Escape(a) + Escape(b)
  {
    if a != [] {
      EscapeConcat(a[1..], b);
      assert (a + b)[1..] == a[1..] + b;
    } else {
      assert a + b == b;
    }
  }

  function Prepend(c: byte, r: Option<Bytes>): Option<Bytes>
  {
    match r
    case None => None
    case Some(t) => Some([c] + t)
  }

  /** url.QueryUnescape: '+' reads as a space, "%XY" as the byte with hex digits XY; a bad escape fails. */
  function Unescape(s: Bytes): (r: Option<Bytes>)
    decreases |s|
  {
    if s == [] then Some([])
    else if s[0] == Percent then
      if |s| < 3 || !IsHex(s[1]) || !IsHex(s[2]) then None
      else Prepend((HexValue(s[1]) * 16 + HexValue(s[2])) as char, Unescape(s[3..]))
    else if s[0] == Plus then Prepend(Space, Unescape(s[1..]))
    else Prepend(s[0], Unescape(s[1..]))
  }

  lemma UnescapeEscapeByte(c: byte, t: Bytes)
    ensures Unescape(EscapeByte(c) + t) == Prepend(c, Unescape(t))
  {
    var e := EscapeByte(c) + t;
    if !Unreserved(c) && c != Space {
      assert e[3..] == t;
    } else {
      assert e[1..] == t;
    }
  }

  /** QueryUnescape undoes QueryEscape. */
  lemma {:induction false} UnescapeEscape(s: Bytes)
    ensures Unescape(Escape(s)) == Some(s)
  {
    if s != [] {
      UnescapeEscape(s[1..]);
      UnescapeEscapeByte(s[0], Escape(s[1..]));
      assert [s[0]] + s[1..] == s;
    }
  }

  // ---------------------------------------------------------------------
  // Sorting the keys
  // ---------------------------------------------------------------------

  predicate StrictlyAscending(ks: seq<Bytes>)
  {
    forall i, j :: 0 <= i < j < |ks| ==> Less(ks[i], ks[j])
  }

  predicate IsLeast(k: Bytes, keys: set<Bytes>)
  {
    k in keys && forall j :: j in keys ==> k == j || Less(k, j)
  }

  lemma {:induction false} LeastExists(keys: set<Bytes>)
    requires keys != {}
    ensures exists k :: IsLeast(k, keys)
    decreases |keys|
  {
    var x :| x in keys;
    var rest := keys - {x};
    if rest == {} {
      assert keys == {x};
      assert IsLeast(x, keys);
    } else {
      LeastExists(rest);
      var m :| IsLeast(m, rest);
      LessTotal(x, m);
      if Less(x, m) {
        forall j | j in keys
          ensures x == j || Less(x, j)
        {
          if j != x && j != m {
            LessTransitive(x, m, j);
          }
        }
        assert IsLeast(x, keys);
      } else {
        assert IsLeast(m, keys);
      }
    }
  }

  /** The keys of a map in ascending order (what Encode sorts them into). */
  function SortedKeys(keys: set<Bytes>): (ks: seq<Bytes>)
    ensures StrictlyAscending(ks)
    ensures forall k :: k in ks <==> k in keys
    ensures |ks| == |keys|
    decreases |keys|
  {
    if keys == {} then []
    else
      LeastExists(keys);
      LessIsAsymmetric();
      var k :| k in keys && IsLeast(k, keys);
      var tail := SortedKeys(keys - {k});
      LeastFirst(k, keys, tail);
      [k] + tail
  }

  lemma LeastFirst(k: Bytes, keys: set<Bytes>, tail: seq<Bytes>)
    requires IsLeast(k, keys) && StrictlyAscending(tail)
    requires forall x :: x in tail <==> x in keys - {k}
    requires |tail| == |keys - {k}|
    ensures StrictlyAscending([k] + tail)
    ensures forall x :: x in [k] + tail <==> x in keys
    ensures |[k] + tail| == |keys|
  {
    var ks := [k] + tail;
    forall i, j | 0 <= i < j < |ks|
      ensures Less(ks[i], ks[j])
    {
      if i > 0 {
        assert ks[i] == tail[i - 1] && ks[j] == tail[j - 1];
      } else {
        assert ks[j] == tail[j - 1];
        assert ks[j] in keys - {k};
      }
    }
  }

  /** Ascending order is decided by its neighbours. */
  lemma {:induction false} AscendingFromNeighbours(ks: seq<Bytes>)
    requires forall i :: 0 <= i < |ks| - 1 ==> Less(ks[i], ks[i + 1])
    ensures StrictlyAscending(ks)
    decreases |ks|
  {
    if |ks| > 1 {
      AscendingFromNeighbours(ks[1..]);
      forall j | 1 < j < |ks|
        ensures Less(ks[0], ks[j])
      {
        assert ks[1..][0] == ks[1] && ks[1..][j - 1] == ks[j];
        LessTransitive(ks[0], ks[1], ks[j]);
      }
    }
  }

  /** Two ascending sequences of the same keys are the same sequence. */
  lemma {:induction false} AscendingUnique(xs: seq<Bytes>, ys: seq<Bytes>)
    requires StrictlyAscending(xs) && StrictlyAscending(ys)
    requires forall k :: k in xs <==> k in ys
    ensures xs == ys
    decreases |xs|
  {
    assert xs == [] <==> ys == [] by {
      if xs != [] {
        assert xs[0] in xs;
      }
      if ys != [] {
        assert ys[0] in ys;
      }
    }
    if xs != [] {
      assert xs[0] == ys[0] by {
        assert xs[0] in xs && ys[0] in ys;
        if xs[0] != ys[0] {
          var i :| 0 <= i < |ys| && ys[i] == xs[0];
          var j :| 0 <= j < |xs| && xs[j] == ys[0];
          LessAsymmetric(xs[0], ys[0]);
        }
      }
      forall k
        ensures k in xs[1..] <==> k in ys[1..]
      {
        if k in xs[1..] {
          var i :| 1 <= i < |xs| && xs[i] == k;
          assert k in xs;
          var j :| 0 <= j < |ys| && ys[j] == k;
          LessIrreflexive(xs[0]);
          assert j != 0;
          assert ys[1..][j - 1] == k;
        }
        if k in ys[1..] {
          var i :| 1 <= i < |ys| && ys[i] == k;
          assert k in ys;
          var j :| 0 <= j < |xs| && xs[j] == k;
          LessIrreflexive(ys[0]);
          assert j != 0;
          assert xs[1..][j - 1] == k;
        }
      }
      AscendingUnique(xs[1..], ys[1..]);
    }
  }

  /** SortedKeys is the one ascending listing of the keys. */
  lemma SortedKeysUnique(keys: set<Bytes>, ks: seq<Bytes>)
    requires StrictlyAscending(ks)
    requires forall k :: k in ks <==> k in keys
    ensures SortedKeys(keys) == ks
  {
    AscendingUnique(SortedKeys(keys), ks);
  }

  // ---------------------------------------------------------------------
  // Encode and its inverse
  // ---------------------------------------------------------------------

  /** The text "key=value" that Encode writes for one key. */
  function Pair(v: Values, k: Bytes): Bytes
    requires k in v
  {
    Escape(k) + [EqualsSign] + Escape(v[k])
  }

  function Pairs(v: Values, ks: seq<Bytes>): seq<Bytes>
    requires forall k :: k in ks ==> k in v
  {
    seq(|ks|, i requires 0 <= i < |ks| => Pair(v, ks[i]))
  }

  /** url.Values.Encode: the pairs in ascending key order, joined by '&'; "" for no values. */
  function Encode(v: Values): Bytes
  {
    Join(Pairs(v, SortedKeys(v.Keys)), Ampersand)
  }

  /** Encode writes nothing exactly when there are no values. */
  lemma EncodeEmpty(v: Values)
    ensures Encode(v) == [] <==> v == map[]
  {
    var ks := SortedKeys(v.Keys);
    if v != map[] {
      var k :| k in v;
      assert |ks| >= 1;
      JoinNonEmpty(Pairs(v, ks), Ampersand);
    }
  }

  /** The body read back as its '&'-separated parts: one "key=value" per key, keys ascending. */
  lemma EncodeParts(v: Values)
    requires v != map[]
    ensures Split(Encode(v), Ampersand) == Pairs(v, SortedKeys(v.Keys))
  {
    var ks := SortedKeys(v.Keys);
    var k :| k in v;
    assert k in ks;
    SplitJoin(Pairs(v, ks), Ampersand);
  }

  /** Reads one "key=value" part, unescaping both sides (a part without '=' is a key with an empty value). */
  function ParsePart(part: Bytes): Option<(Bytes, Bytes)>
  {
    var (key, value) := Cut(part, EqualsSign);
    match (Unescape(key), Unescape(value))
    case (Some(k), Some(x)) => Some((k, x))
    case _ => None
  }

  /** Reads the parts in order, skipping empty ones; fails on the first bad escape. */
  function ParseParts(parts: seq<Bytes>): Option<seq<(Bytes, Bytes)>>
  {
    if parts == [] then Some([])
    else
      var rest := ParseParts(parts[1..]);
      if parts[0] == [] then rest
      else
        match (ParsePart(parts[0]), rest)
        case (Some(p), Some(ps)) => Some([p] + ps)
        case _ => None
  }

  /** The values obtained by setting each pair in turn: a later pair overwrites an earlier one. */
  function FromPairs(ps: seq<(Bytes, Bytes)>): Values
  {
    if ps == [] then map[]
    else
      var last := ps[|ps| - 1];
      FromPairs(ps[..|ps| - 1])[last.0 := last.1]
  }

  /** url.ParseQuery for a body without repeated keys. */
  function Parse(body: Bytes): Option<Values>
  {
    match ParseParts(Split(body, Ampersand))
    case None => None
    case Some(ps) => Some(FromPairs(ps))
  }

  predicate DistinctKeys(ps: seq<(Bytes, Bytes)>)
  {
    forall i, j :: 0 <= i < j < |ps| ==> ps[i].0 != ps[j].0
  }

  /** The keys set by a sequence of pairs are exactly the pairs' keys. */
  lemma {:induction false} FromPairsKeys(ps: seq<(Bytes, Bytes)>)
    ensures forall k :: k in FromPairs(ps) <==> exists i :: 0 <= i < |ps| && ps[i].0 == k
  {
    if ps != [] {
      var init := ps[..|ps| - 1];
      FromPairsKeys(init);
      forall k | k in FromPairs(ps)
        ensures exists i :: 0 <= i < |ps| && ps[i].0 == k
      {
        if k != ps[|ps| - 1].0 {
          assert k in FromPairs(init);
          var i :| 0 <= i < |init| && init[i].0 == k;
          assert ps[i].0 == k;
        }
      }
      forall k | exists i :: 0 <= i < |ps| && ps[i].0 == k
        ensures k in FromPairs(ps)
      {
        var i :| 0 <= i < |ps| && ps[i].0 == k;
        if i < |init| {
          assert init[i].0 == k;
        }
      }
    }
  }

  /** With distinct keys, each key is set to the value of its own pair. */
  lemma {:induction false} FromPairsValue(ps: seq<(Bytes, Bytes)>, i: nat)
    requires DistinctKeys(ps) && i < |ps|
    ensures ps[i].0 in FromPairs(ps) && FromPairs(ps)[ps[i].0] == ps[i].1
  {
    var init := ps[..|ps| - 1];
    if i < |ps| - 1 {
      FromPairsValue(init, i);
    }
  }

  /** With distinct keys, there are as many values as pairs. */
  lemma {:induction false} FromPairsSize(ps: seq<(Bytes, Bytes)>)
    requires DistinctKeys(ps)
    ensures |FromPairs(ps)| == |ps|
  {
    if ps != [] {
      var init := ps[..|ps| - 1];
      FromPairsSize(init);
      FromPairsKeys(init);
      assert ps[|ps| - 1].0 !in FromPairs(init);
    }
  }

  function KeyValues(v: Values, ks: seq<Bytes>): seq<(Bytes, Bytes)>
    requires forall k :: k in ks ==> k in v
  {
    seq(|ks|, i requires 0 <= i < |ks| => (ks[i], v[ks[i]]))
  }

  lemma ParsePair(v: Values, k: Bytes)
    requires k in v
    ensures Pair(v, k) != [] && ParsePart(Pair(v, k)) == Some((k, v[k]))
  {
    CutAfterPrefix(Escape(k), EqualsSign, Escape(v[k]));
    UnescapeEscape(k);
    UnescapeEscape(v[k]);
  }

  lemma PairsAndKeyValuesTail(v: Values, ks: seq<Bytes>)
    requires ks != [] && forall k :: k in ks ==> k in v
    ensures Pairs(v, ks) == [Pair(v, ks[0])] + Pairs(v, ks[1..])
    ensures KeyValues(v, ks) == [(ks[0], v[ks[0]])] + KeyValues(v, ks[1..])
  {
  }

  lemma {:induction false} ParseEncodedParts(v: Values, ks: seq<Bytes>)
    requires forall k :: k in ks ==> k in v
    ensures ParseParts(Pairs(v, ks)) == Some(KeyValues(v, ks))
    decreases |ks|
  {
    if ks != [] {
      var parts := Pairs(v, ks);
      PairsAndKeyValuesTail(v, ks);
      ParseEncodedParts(v, ks[1..]);
      ParsePair(v, ks[0]);
      assert parts[0] == Pair(v, ks[0]) && parts[1..] == Pairs(v, ks[1..]);
      assert ParseParts(parts) == Some([(ks[0], v[ks[0]])] + KeyValues(v, ks[1..]));
    } else {
      assert Pairs(v, ks) == [] && KeyValues(v, ks) == [];
    }
  }

  /** Setting the pairs of an ascending list of all the keys rebuilds the values. */
  lemma FromKeyValues(v: Values, ks: seq<Bytes>)
    requires StrictlyAscending(ks)
    requires forall k :: k in ks <==> k in v
    ensures FromPairs(KeyValues(v, ks)) == v
  {
    var ps := KeyValues(v, ks);
    assert DistinctKeys(ps) by {
      forall i, j | 0 <= i < j < |ps|
        ensures ps[i].0 != ps[j].0
      {
        LessIrreflexive(ks[i]);
      }
    }
    FromPairsKeys(ps);
    forall k | k in v
      ensures k in FromPairs(ps) && FromPairs(ps)[k] == v[k]
    {
      var i :| 0 <= i < |ks| && ks[i] == k;
      FromPairsValue(ps, i);
    }
    forall k | k in FromPairs(ps)
      ensures k in v
    {
      var i :| 0 <= i < |ps| && ps[i].0 == k;
    }
  }

  /** Reading an encoded body gives back exactly the values that were encoded. */
  lemma ParseEncode(v: Values)
    ensures Parse(Encode(v)) == Some(v)
  {
    var ks := SortedKeys(v.Keys);
    if v == map[] {
      assert ks == [] && Encode(v) == [];
      assert Split([], Ampersand) == [[]];
      assert ParseParts([[]]) == Some([]);
      assert FromPairs([]) == v;
    } else {
      EncodeParts(v);
      ParseEncodedParts(v, ks);
      FromKeyValues(v, ks);
    }
  }
}
