/**
 * The Python string built-ins the driver relies on: `str.strip()`, the substring test
 * `pattern in line`, `str.split(",")` and `",".join(parts)`.
 */
module Text {

  /** Python's `str.isspace()`: the characters `str.strip()` and `float()` remove. */
  predicate IsSpace(c: char) {
    var n := c as int;
    (9 <= n <= 13) || (0x1C <= n <= 0x20) || n == 0x85 || n == 0xA0 || n == 0x1680 ||
    (0x2000 <= n <= 0x200A) || n == 0x2028 || n == 0x2029 || n == 0x202F || n == 0x205F ||
    n == 0x3000
  }

  /** Number of whitespace characters at the front of `s`. */
  function LeadingSpaces(s: string): (k: nat)
    ensures k <= |s|
    ensures forall i :: 0 <= i < k ==> IsSpace(s[i])
    ensures k < |s| ==> !IsSpace(s[k])
  {
    if |s| > 0 && IsSpace(s[0]) then 1 + LeadingSpaces(s[1..]) else 0
  }

  /** Number of whitespace characters at the end of `s`. */
  function TrailingSpaces(s: string): (k: nat)
    ensures k <= |s|
    ensures forall i :: |s| - k <= i < |s| ==> IsSpace(s[i])
    ensures k < |s| ==> !IsSpace(s[|s| - 1 - k])
  {
    if |s| > 0 && IsSpace(s[|s| - 1]) then 1 + TrailingSpaces(s[..|s| - 1]) else 0
  }

  /**
   * `s.strip()`: the longest slice of `s` that neither starts nor ends with whitespace
   * and outside of which there is only whitespace.
   */
  function Strip(s: string): (r: string)
    ensures |r| <= |s|
    ensures r == [] || (!IsSpace(r[0]) && !IsSpace(r[|r| - 1]))
    ensures LeadingSpaces(s) + |r| <= |s| && r == s[LeadingSpaces(s)..LeadingSpaces(s) + |r|]
  {
    var rest := s[LeadingSpaces(s)..];
    rest[..|rest| - TrailingSpaces(rest)]
  }

  /** `strip()` removes nothing but whitespace: every other character of `s` is kept. */
  lemma StripRemovesOnlySpace(s: string, i: nat)
    requires i < |s| && !IsSpace(s[i])
    ensures LeadingSpaces(s) <= i < LeadingSpaces(s) + |Strip(s)|
  {
    var rest := s[LeadingSpaces(s)..];
    assert rest[|rest| - 1 - TrailingSpaces(rest)..] == s[|s| - 1 - TrailingSpaces(rest)..];
  }

  /** Stripping a line that has no surrounding whitespace gives the line back. */
  lemma StripKeeps(s: string)
    requires s == [] || (!IsSpace(s[0]) && !IsSpace(s[|s| - 1]))
    ensures Strip(s) == s
  {
    assert LeadingSpaces(s) == 0;
    assert s[0..] == s;
  }

  /** `strip()` is idempotent. */
  lemma StripIdempotent(s: string)
    ensures Strip(Strip(s)) == Strip(s)
  {
    StripKeeps(Strip(s));
  }

  /** `p` sits in `s` at position `i`. */
  predicate OccursAt(s: string, p: string, i: int) {
    0 <= i && i + |p| <= |s| && s[i..i + |p|] == p
  }

  /** Python's `p in s` on strings: a substring test at any position, not a prefix test. */
  function Contains(s: string, p: string): (b: bool)
    ensures b <==> exists i :: OccursAt(s, p, i)
    decreases |s|
  {
    if |p| <= |s| && s[..|p|] == p then
      assert OccursAt(s, p, 0);
      true
    else if |s| == 0 then
      false
    else
      var b := Contains(s[1..], p);
      assert forall i :: OccursAt(s[1..], p, i) <==> OccursAt(s, p, i + 1) by {
        forall i ensures OccursAt(s[1..], p, i) <==> OccursAt(s, p, i + 1) {
          if 0 <= i && i + |p| <= |s| - 1 {
            assert s[1..][i..i + |p|] == s[i + 1..i + 1 + |p|];
          }
        }
      }
      assert forall i :: OccursAt(s, p, i) ==> i >= 1 && OccursAt(s[1..], p, i - 1);
      b
  }

  /** The delimiter between the fields of a sentence. */
  const Delimiter: char := ','

  /** `s.split(",")`: always at least one field, no field holds the delimiter. */
  function Split(s: string): (r: seq<string>)
    ensures |r| >= 1
    ensures forall k :: 0 <= k < |r| ==> Delimiter !in r[k]
  {
    if |s| == 0 then [""]
    else
      var rest := Split(s[1..]);
      if s[0] == Delimiter then [""] + rest
      else [[s[0]] + rest[0]] + rest[1..]
  }

  /** `",".join(parts)`: the parts with a comma between neighbours, from the first to the last. */
  function Join(parts: seq<string>): (r: string)
    ensures |parts| > 0 ==> parts[0] <= r
  {
    if |parts| == 0 then ""
    else if |parts| == 1 then parts[0]
    else parts[0] + [Delimiter] + Join(parts[1..])
  }

  /** Joining a list whose first field is `x`. */
  lemma JoinHead(x: string, rest: seq<string>)
    ensures Join([x] + rest) == x + (if rest == [] then "" else [Delimiter] + Join(rest))
  {
    var q := [x] + rest;
    if rest != [] {
      assert q[1..] == rest;
    }
  }

  /** Prepending characters to the first field prepends them to the joined line. */
  lemma JoinPrepend(c: string, x: string, rest: seq<string>)
    ensures Join([c + x] + rest) == c + Join([x] + rest)
  {
    JoinHead(c + x, rest);
    JoinHead(x, rest);
    var t := if rest == [] then "" else [Delimiter] + Join(rest);
    assert (c + x) + t == c + (x + t);
  }

  /** Joining the fields of a split line gives the line back. */
  lemma {:induction false} JoinSplit(s: string)
    ensures Join(Split(s)) == s
  {
    if |s| > 0 {
      var rest := Split(s[1..]);
      JoinSplit(s[1..]);
      if s[0] == Delimiter {
        assert ([""] + rest)[1..] == rest;
      } else {
        JoinPrepend([s[0]], rest[0], rest[1..]);
        assert [rest[0]] + rest[1..] == rest;
      }
      assert [s[0]] + s[1..] == s;
    }
  }

  /** A string without the delimiter splits into itself. */
  lemma {:induction false} SplitField(a: string)
    requires Delimiter !in a
    ensures Split(a) == [a]
  {
    if |a| > 0 {
      SplitField(a[1..]);
      assert [a[0]] + a[1..] == a;
    }
  }

  /** A delimiter-free field followed by the delimiter splits off as the first field. */
  lemma {:induction false} SplitFirst(a: string, b: string)
    requires Delimiter !in a
    ensures Split(a + [Delimiter] + b) == [a] + Split(b)
  {
    if |a| == 0 {
      assert a + [Delimiter] + b == [Delimiter] + b;
      assert ([Delimiter] + b)[1..] == b;
    } else {
      var s := a + [Delimiter] + b;
      assert s[0] == a[0] && s[1..] == a[1..] + [Delimiter] + b;
      SplitFirst(a[1..], b);
      assert [a[0]] + a[1..] == a;
    }
  }

  /** Splitting a joined list of delimiter-free fields gives the fields back. */
  lemma {:induction false} SplitJoin(parts: seq<string>)
    requires |parts| >= 1
    requires forall k :: 0 <= k < |parts| ==> Delimiter !in parts[k]
    ensures Split(Join(parts)) == parts
  {
    if |parts| == 1 {
      SplitField(parts[0]);
    } else {
      SplitJoin(parts[1..]);
      SplitFirst(parts[0], Join(parts[1..]));
      assert [parts[0]] + parts[1..] == parts;
    }
  }
}
