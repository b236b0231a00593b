/**
 * Go strings as the model sees them: finite sequences of bytes.
 *
 * A byte is held in a `char` below 256, so that string literals such as
 * "push_events" can be written as they are in the Go source. The operations
 * here are the pieces of Go's `strings` package and of Go's string
 * comparison that the hook serialiser relies on.
 */
module ByteStrings {

  /** One byte of a Go string. */
  type byte = c: char | c as int < 256

  /** A Go string. */
  type Bytes = seq<byte>

  // ---------------------------------------------------------------------
  // Ordering: Go compares strings bytewise, a proper prefix coming first.
  // ---------------------------------------------------------------------

  /** `a < b` on Go strings. */
  predicate Less(a: Bytes, b: Bytes)
  {
    if a == [] then b != []
    else b != [] && (a[0] < b[0] || (a[0] == b[0] && Less(a[1..], b[1..])))
  }

  lemma {:induction false} LessIrreflexive(a: Bytes)
    ensures !Less(a, a)
  {
    if a != [] {
      LessIrreflexive(a[1..]);
    }
  }

  lemma {:induction false} LessAsymmetric(a: Bytes, b: Bytes)
    ensures Less(a, b) ==> !Less(b, a)
  {
    if a != [] && b != [] {
      LessAsymmetric(a[1..], b[1..]);
    }
  }

  lemma {:induction false} LessTransitive(a: Bytes, b: Bytes, c: Bytes)
    requires Less(a, b) && Less(b, c)
    ensures Less(a, c)
  {
    if a != [] && a[0] == b[0] && b[0] == c[0] {
      LessTransitive(a[1..], b[1..], c[1..]);
    }
  }

  lemma {:induction false} LessTotal(a: Bytes, b: Bytes)
    ensures a == b || Less(a, b) || Less(b, a)
  {
    if a != [] && b != [] && a[0] == b[0] {
      LessTotal(a[1..], b[1..]);
      if a[1..] == b[1..] {
        assert a == [a[0]] + a[1..] && b == [b[0]] + b[1..];
      }
    }
  }

  /** Every pair of strings is ordered one way at most. */
  lemma LessIsAsymmetric()
    ensures forall a: Bytes, b: Bytes :: Less(a, b) ==> !Less(b, a)
  {
    forall a: Bytes, b: Bytes
      ensures Less(a, b) ==> !Less(b, a)
    {
      LessAsymmetric(a, b);
    }
  }

  // ---------------------------------------------------------------------
  // Searching, splitting and joining on a one-byte separator.
  // ---------------------------------------------------------------------

  /** Position of the first `x` in `s` (strings.IndexByte when it finds one). */
  function IndexOf(s: Bytes, x: byte): (i: nat)
    requires x in s
    ensures i < |s| && s[i] == x && x !in s[..i]
  {
    if s[0] == x then 0 else 1 + IndexOf(s[1..], x)
  }

  /** A separator placed after a separator-free prefix is the first one. */
  lemma IndexAfterPrefix(p: Bytes, sep: byte, rest: Bytes)
    requires sep !in p
    ensures sep in p + [sep] + rest
    ensures IndexOf(p + [sep] + rest, sep) == |p|
  {
    var s := p + [sep] + rest;
    assert s[|p|] == sep;
  }

  /** strings.Split(s, sep) for a one-byte separator: the pieces between separators. */
  function Split(s: Bytes, sep: byte): (parts: seq<Bytes>)
    ensures |parts| >= 1
    ensures forall i :: 0 <= i < |parts| ==> sep !in parts[i]
    ensures parts[0] <= s && (|parts[0]| < |s| ==> s[|parts[0]|] == sep)
    decreases |s|
  {
    if sep in s then
      var i := IndexOf(s, sep);
      [s[..i]] + Split(s[i + 1..], sep)
    else
      [s]
  }

  lemma SplitAfterPrefix(p: Bytes, sep: byte, rest: Bytes)
    requires sep !in p
    ensures Split(p + [sep] + rest, sep) == [p] + Split(rest, sep)
  {
    var s := p + [sep] + rest;
    IndexAfterPrefix(p, sep, rest);
    assert s[..|p|] == p && s[|p| + 1..] == rest;
  }

  /** strings.Join(parts, string(sep)). */
  function Join(parts: seq<Bytes>, sep: byte): Bytes
  {
    if |parts| == 0 then []
    else if |parts| == 1 then parts[0]
    else parts[0] + [sep] + Join(parts[1..], sep)
  }

  /** Splitting undoes joining when no piece holds the separator. */
  lemma {:induction false} SplitJoin(parts: seq<Bytes>, sep: byte)
    requires |parts| >= 1
    requires forall i :: 0 <= i < |parts| ==> sep !in parts[i]
    ensures Split(Join(parts, sep), sep) == parts
  {
    if |parts| > 1 {
      SplitJoin(parts[1..], sep);
      SplitAfterPrefix(parts[0], sep, Join(parts[1..], sep));
      assert [parts[0]] + parts[1..] == parts;
    }
  }

  /** Joining the pieces of a split gives back the string. */
  lemma {:induction false} JoinSplit(s: Bytes, sep: byte)
    ensures Join(Split(s, sep), sep) == s
    decreases |s|
  {
    if sep in s {
      var i := IndexOf(s, sep);
      JoinSplit(s[i + 1..], sep);
      assert s == s[..i] + [sep] + s[i + 1..];
    }
  }

  /** A join whose first piece is non-empty is non-empty. */
  lemma {:induction false} JoinNonEmpty(parts: seq<Bytes>, sep: byte)
    requires |parts| >= 1 && parts[0] != []
    ensures Join(parts, sep) != []
  {
  }

  /** strings.Cut(s, string(sep)): the text before and after the first separator, or all of s and nothing. */
  function Cut(s: Bytes, sep: byte): (Bytes, Bytes)
  {
    if sep in s then
      var i := IndexOf(s, sep);
      (s[..i], s[i + 1..])
    else
      (s, [])
  }

  lemma CutAfterPrefix(p: Bytes, sep: byte, rest: Bytes)
    requires sep !in p
    ensures Cut(p + [sep] + rest, sep) == (p, rest)
  {
    var s := p + [sep] + rest;
    IndexAfterPrefix(p, sep, rest);
    assert s[..|p|] == p && s[|p| + 1..] == rest;
  }
}
