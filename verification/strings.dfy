/**
 * The few Python string operations the scraper and the transformer rely on:
 * substring test (`sub in s`), `str.strip()`, `s.split(sep)[0]`,
 * `s.split(c)`, and deleting characters (`str.translate` / `str.replace(ch, "")`).
 */
module Strings {

  /** `sub` occurs in `s` starting at index `i`. */
  predicate OccursAt(s: string, sub: string, i: nat)
  {
    i + |sub| <= |s| && s[i..i + |sub|] == sub
  }

  lemma OccursAtShift(s: string, sub: string, i: nat)
    requires |s| > 0
    ensures OccursAt(s[1..], sub, i) <==> OccursAt(s, sub, i + 1)
  {
    if i + 1 + |sub| <= |s| {
      assert s[1..][i..i + |sub|] == s[i + 1..i + 1 + |sub|];
    }
  }

  /** Python's `sub in s`. */
  function Contains(s: string, sub: string): bool
    decreases |s|
  {
    if |sub| > |s| then false
    else if s[..|sub|] == sub then true
    else Contains(s[1..], sub)
  }

  /** `sub in s` holds exactly when `sub` occurs at some index of `s`. */
  lemma {:induction false} ContainsOccurs(s: string, sub: string)
    ensures Contains(s, sub) <==> exists i: nat :: OccursAt(s, sub, i)
    decreases |s|
  {
    if |sub| > |s| {
    } else if s[..|sub|] == sub {
      assert OccursAt(s, sub, 0);
    } else {
      ContainsOccurs(s[1..], sub);
      if Contains(s[1..], sub) {
        var i: nat :| OccursAt(s[1..], sub, i);
        OccursAtShift(s, sub, i);
      } else {
        forall i: nat ensures !OccursAt(s, sub, i) {
          if i > 0 {
            OccursAtShift(s, sub, i - 1);
          }
        }
      }
    }
  }

  /** `sub` cannot occur in `s` when its first character does not. */
  lemma FirstCharMissing(s: string, sub: string)
    requires sub != [] && sub[0] !in s
    ensures !Contains(s, sub)
  {
    ContainsOccurs(s, sub);
    forall i: nat ensures !OccursAt(s, sub, i) {
      if i + |sub| <= |s| {
        assert s[i..i + |sub|][0] == s[i];
      }
    }
  }

  /** The characters Python's `str.isspace()` accepts, hence those `str.strip()` removes. */
  predicate IsSpace(c: char)
  {
    var n := c as int;
    (0x09 <= n <= 0x0D) || (0x1C <= n <= 0x20) || n == 0x85 || n == 0xA0 || n == 0x1680
    || (0x2000 <= n <= 0x200A) || n == 0x2028 || n == 0x2029 || n == 0x202F || n == 0x205F
    || n == 0x3000
  }

  function StripLeft(s: string): string
  {
    if s != [] && IsSpace(s[0]) then StripLeft(s[1..]) else s
  }

  function StripRight(s: string): string
  {
    if s != [] && IsSpace(s[|s| - 1]) then StripRight(s[..|s| - 1]) else s
  }

  /** Python's `str.strip()` with no argument: drop leading and trailing white space. */
  function Strip(s: string): string
  {
    StripRight(StripLeft(s))
  }

  /** `StripLeft` keeps a suffix and drops only white space before it. */
  lemma {:induction false} StripLeftSuffix(s: string)
    ensures var r := StripLeft(s);
            && |r| <= |s| && r == s[|s| - |r|..]
            && (forall i :: 0 <= i < |s| - |r| ==> IsSpace(s[i]))
            && (r != [] ==> !IsSpace(r[0]))
  {
    if s != [] && IsSpace(s[0]) {
      StripLeftSuffix(s[1..]);
      var r := StripLeft(s[1..]);
      assert s[1..][|s| - 1 - |r|..] == s[|s| - |r|..];
      assert forall i :: 1 <= i < |s| - |r| ==> s[i] == s[1..][i - 1];
    }
  }

  /** `StripRight` keeps a prefix and drops only white space after it. */
  lemma {:induction false} StripRightPrefix(s: string)
    ensures var r := StripRight(s);
            && |r| <= |s| && r == s[..|r|]
            && (forall i :: |r| <= i < |s| ==> IsSpace(s[i]))
            && (r != [] ==> !IsSpace(r[|r| - 1]))
  {
    if s != [] && IsSpace(s[|s| - 1]) {
      StripRightPrefix(s[..|s| - 1]);
      var r := StripRight(s[..|s| - 1]);
      assert s[..|s| - 1][..|r|] == s[..|r|];
    }
  }

  /** `r` is the slice of `s` at `i` with only white space around it. */
  predicate StrippedAt(s: string, r: string, i: nat)
  {
    && i + |r| <= |s| && r == s[i..i + |r|]
    && (forall k :: 0 <= k < i ==> IsSpace(s[k]))
    && (forall k :: i + |r| <= k < |s| ==> IsSpace(s[k]))
  }

  /**
   * `s.strip()` is a slice of `s` with only white space around it, neither
   * starting nor ending with white space, and empty exactly when `s` is all
   * white space.
   */
  lemma StripSpec(s: string)
    ensures var r := Strip(s);
            && (r != [] ==> !IsSpace(r[0]) && !IsSpace(r[|r| - 1]))
            && (r == [] <==> forall i :: 0 <= i < |s| ==> IsSpace(s[i]))
            && exists i: nat :: StrippedAt(s, r, i)
  {
    var left := StripLeft(s);
    var r := StripRight(left);
    var i := |s| - |left|;
    StripLeftSuffix(s);
    StripRightPrefix(left);
    forall j | 0 <= j < |r| ensures r[j] == s[i + j] {
      assert r[j] == left[j];
    }
    forall k | i + |r| <= k < |s| ensures IsSpace(s[k]) {
      assert s[k] == left[k - i];
    }
    assert StrippedAt(s, r, i);
    if r != [] {
      assert r[0] == left[0];
    }
  }

  /**
   * Python's `s.split(sep)[0]`: the part of `s` before the first occurrence
   * of `sep`, or all of `s` when `sep` does not occur.
   */
  function Before(s: string, sep: string): string
    requires sep != []
    decreases |s|
  {
    if |s| < |sep| then s
    else if s[..|sep|] == sep then []
    else [s[0]] + Before(s[1..], sep)
  }

  /** `s.split(sep)[0]` is a prefix of `s` in which `sep` does not start anywhere. */
  lemma {:induction false} BeforePrefix(s: string, sep: string)
    requires sep != []
    ensures var r := Before(s, sep);
            && |r| <= |s| && r == s[..|r|]
            && forall j: nat :: j < |r| ==> !OccursAt(s, sep, j)
    decreases |s|
  {
    if |s| >= |sep| && s[..|sep|] != sep {
      BeforePrefix(s[1..], sep);
      var r := Before(s, sep);
      forall j: nat | j < |r| ensures !OccursAt(s, sep, j) {
        if j > 0 { OccursAtShift(s, sep, j - 1); }
      }
    }
  }

  /** `s.split(sep)[0]` stops short of the end of `s` only where `sep` occurs. */
  lemma {:induction false} BeforeStops(s: string, sep: string)
    requires sep != []
    ensures |Before(s, sep)| < |s| ==> OccursAt(s, sep, |Before(s, sep)|)
    decreases |s|
  {
    if |s| < |sep| {
    } else if s[..|sep|] == sep {
      assert OccursAt(s, sep, 0);
    } else {
      BeforeStops(s[1..], sep);
      OccursAtShift(s, sep, |Before(s[1..], sep)|);
    }
  }

  /**
   * `s.split(sep)[0]` is the prefix of `s` that ends where `sep` first
   * occurs, and is all of `s` exactly when `sep` does not occur.
   */
  lemma BeforeSpec(s: string, sep: string)
    requires sep != []
    ensures var r := Before(s, sep);
            && |r| <= |s| && r == s[..|r|]
            && (forall j: nat :: j < |r| ==> !OccursAt(s, sep, j))
            && (|r| < |s| ==> OccursAt(s, sep, |r|))
            && (r == s <==> !Contains(s, sep))
  {
    BeforePrefix(s, sep);
    BeforeStops(s, sep);
    ContainsOccurs(s, sep);
    var r := Before(s, sep);
    if r == s {
      forall j: nat ensures !OccursAt(s, sep, j) {
        if j + |sep| <= |s| {
          assert j < |r|;
        }
      }
    }
  }

  /** The part before a one-character separator does not hold it. */
  lemma BeforeCharFree(s: string, c: char)
    ensures c !in Before(s, [c])
  {
    BeforePrefix(s, [c]);
    var head := Before(s, [c]);
    forall j | 0 <= j < |head| ensures head[j] != c {
      assert !OccursAt(s, [c], j);
      assert s[j..j + 1] == [s[j]];
    }
  }

  /** A one-character separator that does not occur leaves the whole string. */
  lemma {:induction false} BeforeMissing(s: string, c: char)
    requires c !in s
    ensures Before(s, [c]) == s
  {
    if s != [] {
      BeforeMissing(s[1..], c);
      assert s[..1] == [s[0]];
    }
  }

  /** Python's `"c".join(parts)` for a one-character separator. */
  function Join(parts: seq<string>, c: char): (s: string)
    requires |parts| >= 1
  {
    if |parts| == 1 then parts[0] else parts[0] + [c] + Join(parts[1..], c)
  }

  /** Python's `s.split(c)` for a one-character separator; there is always at least one piece. */
  function Split(s: string, c: char): (r: seq<string>)
    ensures |r| >= 1
  {
    if s == [] then
      [[]]
    else
      var rest := Split(s[1..], c);
      if s[0] == c then [[]] + rest else [[s[0]] + rest[0]] + rest[1..]
  }

  /** The pieces of `s.split(c)` hold no `c`. */
  lemma {:induction false} SplitPiecesFree(s: string, c: char)
    ensures forall i :: 0 <= i < |Split(s, c)| ==> c !in Split(s, c)[i]
  {
    if s != [] {
      SplitPiecesFree(s[1..], c);
      var rest := Split(s[1..], c);
      if s[0] != c {
        assert Split(s, c) == [[s[0]] + rest[0]] + rest[1..];
      }
    }
  }

  /** Joining the pieces of `s.split(c)` with `c` gives back `s`. */
  lemma {:induction false} SplitRejoin(s: string, c: char)
    ensures Join(Split(s, c), c) == s
  {
    if s != [] {
      SplitRejoin(s[1..], c);
      var rest := Split(s[1..], c);
      var r := Split(s, c);
      if s[0] == c {
        assert r == [[]] + rest;
        assert Join(r, c) == [] + [c] + Join(rest, c);
        assert s == [c] + s[1..];
      } else {
        assert r == [[s[0]] + rest[0]] + rest[1..];
        if |rest| > 1 {
          assert r[1..] == rest[1..];
          assert Join(rest, c) == rest[0] + [c] + Join(rest[1..], c);
          assert Join(r, c) == [s[0]] + rest[0] + [c] + Join(rest[1..], c);
        }
        assert s == [s[0]] + s[1..];
      }
    }
  }

  lemma {:induction false} SplitNoSeparator(s: string, c: char)
    requires c !in s
    ensures Split(s, c) == [s]
  {
    if s != [] {
      SplitNoSeparator(s[1..], c);
      assert [s[0]] + s[1..] == s;
    }
  }

  lemma {:induction false} SplitAfterPiece(x: string, y: string, c: char)
    requires c !in x
    ensures Split(x + [c] + y, c) == [x] + Split(y, c)
  {
    if x != [] {
      assert (x + [c] + y)[1..] == x[1..] + [c] + y;
      SplitAfterPiece(x[1..], y, c);
      var rest := Split(x[1..] + [c] + y, c);
      assert rest[0] == x[1..] && rest[1..] == Split(y, c);
      assert [x[0]] + x[1..] == x;
    } else {
      assert (x + [c] + y)[1..] == y;
    }
  }

  /** The last piece ends the joined string, right after a separator when there are several pieces. */
  lemma {:induction false} JoinEndsWithLast(parts: seq<string>, c: char)
    requires |parts| >= 1
    ensures var s, last := Join(parts, c), parts[|parts| - 1];
            |s| >= |last| && s[|s| - |last|..] == last
            && (|parts| > 1 ==> |s| > |last| && s[|s| - |last| - 1] == c)
  {
    if |parts| > 1 {
      JoinEndsWithLast(parts[1..], c);
      var s, t, last := Join(parts, c), Join(parts[1..], c), parts[|parts| - 1];
      assert s == parts[0] + [c] + t;
      assert s[|s| - |t|..] == t;
      if |parts| > 2 {
        assert s[|s| - |last| - 1] == t[|t| - |last| - 1];
      }
    }
  }

  /** `Split` undoes `Join` when no piece holds the separator. */
  lemma {:induction false} SplitJoin(parts: seq<string>, c: char)
    requires |parts| >= 1
    requires forall i :: 0 <= i < |parts| ==> c !in parts[i]
    ensures Split(Join(parts, c), c) == parts
  {
    if |parts| == 1 {
      SplitNoSeparator(parts[0], c);
    } else {
      SplitJoin(parts[1..], c);
      SplitAfterPiece(parts[0], Join(parts[1..], c), c);
    }
  }

  /** The characters of `s` that are not in `cs`, in order. */
  function Remove(s: string, cs: set<char>): (r: string)
    ensures |r| <= |s|
    ensures forall i :: 0 <= i < |r| ==> r[i] !in cs
    ensures forall x :: x in r <==> x in s && x !in cs
  {
    if s == [] then []
    else if s[0] in cs then Remove(s[1..], cs)
    else [s[0]] + Remove(s[1..], cs)
  }

  /** Deleting from a concatenation deletes from each part and keeps them in order. */
  lemma {:induction false} RemoveAppend(a: string, b: string, cs: set<char>)
    ensures Remove(a + b, cs) == Remove(a, cs) + Remove(b, cs)
  {
    if a != [] {
      assert (a + b)[1..] == a[1..] + b;
      RemoveAppend(a[1..], b, cs);
    } else {
      assert a + b == b;
    }
  }

  lemma {:induction false} RemoveNothing(s: string)
    ensures Remove(s, {}) == s
  {
    if s != [] {
      RemoveNothing(s[1..]);
    }
  }

  /** Removing two sets of characters one after the other removes their union. */
  lemma {:induction false} RemoveTwice(s: string, a: set<char>, b: set<char>)
    ensures Remove(Remove(s, a), b) == Remove(s, a + b)
  {
    if s != [] {
      RemoveTwice(s[1..], a, b);
    }
  }
}
