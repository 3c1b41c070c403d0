/** Strings as the template code uses them: Python's substring test `p in s`
    and `s.replace(p, v)`, together with an independent reading of each
    (an occurrence index for `in`, split-then-join for `replace`). */
module Text {

  /** `p` occurs in `s` starting at index `i`. */
  ghost predicate OccursAt(s: string, p: string, i: int)
  {
    0 <= i && i + |p| <= |s| && s[i..i + |p|] == p
  }

  /** Python's `p in s`, as a left-to-right scan. */
  predicate Contains(s: string, p: string)
    decreases |s|
  {
    if |s| < |p| then false
    else if s[..|p|] == p then true
    else Contains(s[1..], p)
  }

  /** Python's `s.replace(p, v)` for a non-empty `p`: every leftmost,
      non-overlapping occurrence of `p` is replaced by `v`. */
  function ReplaceAll(s: string, p: string, v: string): string
    requires p != []
    decreases |s|
  {
    if |s| < |p| then s
    else if s[..|p|] == p then v + ReplaceAll(s[|p|..], p, v)
    else [s[0]] + ReplaceAll(s[1..], p, v)
  }

  /** Python's `s.split(p)`: the pieces of `s` between the occurrences that
      ReplaceAll replaces. */
  function Split(s: string, p: string): (parts: seq<string>)
    requires p != []
    ensures |parts| >= 1 && parts[0] <= s
    decreases |s|
  {
    if |s| < |p| then [s]
    else if s[..|p|] == p then [""] + Split(s[|p|..], p)
    else
      var rest := Split(s[1..], p);
      [[s[0]] + rest[0]] + rest[1..]
  }

  /** Python's `sep.join(parts)`. */
  function Join(parts: seq<string>, sep: string): string
  {
    if |parts| == 0 then ""
    else if |parts| == 1 then parts[0]
    else parts[0] + sep + Join(parts[1..], sep)
  }

  /** The scan finds `p` exactly when `p` occurs at some index. */
  lemma {:induction false} ContainsIff(s: string, p: string)
    ensures Contains(s, p) <==> exists i :: OccursAt(s, p, i)
    decreases |s|
  {
    if |s| < |p| {
    } else if s[..|p|] == p {
      assert OccursAt(s, p, 0);
    } else {
      ContainsIff(s[1..], p);
      if Contains(s[1..], p) {
        var i :| OccursAt(s[1..], p, i);
        assert s[1..][i..i + |p|] == s[i + 1..i + 1 + |p|];
        assert OccursAt(s, p, i + 1);
      } else {
        forall i | OccursAt(s, p, i) ensures false {
          assert i != 0;
          assert s[1..][i - 1..i - 1 + |p|] == s[i..i + |p|];
          assert OccursAt(s[1..], p, i - 1);
        }
      }
    }
  }

  /** An occurrence in `s` is an occurrence in any extension `s + t`. */
  lemma ContainsAppendRight(s: string, t: string, p: string)
    requires Contains(s, p)
    ensures Contains(s + t, p)
  {
    ContainsIff(s, p);
    var i :| OccursAt(s, p, i);
    assert (s + t)[i..i + |p|] == s[i..i + |p|];
    assert OccursAt(s + t, p, i);
    ContainsIff(s + t, p);
  }

  /** An occurrence in `t` is an occurrence in any `s + t`. */
  lemma ContainsAppendLeft(s: string, t: string, p: string)
    requires Contains(t, p)
    ensures Contains(s + t, p)
  {
    ContainsIff(t, p);
    var i :| OccursAt(t, p, i);
    assert (s + t)[|s| + i..|s| + i + |p|] == t[i..i + |p|];
    assert OccursAt(s + t, p, |s| + i);
    ContainsIff(s + t, p);
  }

  /** An occurrence in a prefix of `t` is an occurrence in `t`. */
  lemma ContainsPrefix(s: string, t: string, p: string)
    requires s <= t && Contains(s, p)
    ensures Contains(t, p)
  {
    assert t == s + t[|s|..];
    ContainsAppendRight(s, t[|s|..], p);
  }

  /** Replacing a pattern that does not occur changes nothing. */
  lemma {:induction false} ReplaceAllAbsent(s: string, p: string, v: string)
    requires p != [] && !Contains(s, p)
    ensures ReplaceAll(s, p, v) == s
    decreases |s|
  {
    if |s| >= |p| {
      ReplaceAllAbsent(s[1..], p, v);
      assert [s[0]] + s[1..] == s;
    }
  }

  /** Replacing a pattern by itself changes nothing. */
  lemma {:induction false} ReplaceAllSelf(s: string, p: string)
    requires p != []
    ensures ReplaceAll(s, p, p) == s
    decreases |s|
  {
    if |s| < |p| {
    } else if s[..|p|] == p {
      ReplaceAllSelf(s[|p|..], p);
      assert s[..|p|] + s[|p|..] == s;
    } else {
      ReplaceAllSelf(s[1..], p);
      assert [s[0]] + s[1..] == s;
    }
  }

  /** Joining a split with a first piece extended by one character. */
  lemma JoinExtendFirst(c: char, parts: seq<string>, sep: string)
    requires |parts| >= 1
    ensures Join([[c] + parts[0]] + parts[1..], sep) == [c] + Join(parts, sep)
  {
    var q := [[c] + parts[0]] + parts[1..];
    assert q[1..] == parts[1..];
  }

  /** `p.join(s.split(p)) == s`: splitting loses no character. */
  lemma {:induction false} SplitJoinRoundTrip(s: string, p: string)
    requires p != []
    ensures Join(Split(s, p), p) == s
    decreases |s|
  {
    if |s| < |p| {
    } else if s[..|p|] == p {
      var rest := Split(s[|p|..], p);
      assert Split(s, p) == [""] + rest;
      SplitJoinRoundTrip(s[|p|..], p);
      assert ([""] + rest)[1..] == rest;
      assert s[..|p|] + s[|p|..] == s;
    } else {
      var rest := Split(s[1..], p);
      assert Split(s, p) == [[s[0]] + rest[0]] + rest[1..];
      SplitJoinRoundTrip(s[1..], p);
      JoinExtendFirst(s[0], rest, p);
      assert [s[0]] + s[1..] == s;
    }
  }

  /** `s.replace(p, v) == v.join(s.split(p))`: the replacement keeps every
      character of `s` outside the replaced occurrences, in order. */
  lemma {:induction false} ReplaceAllIsSplitJoin(s: string, p: string, v: string)
    requires p != []
    ensures ReplaceAll(s, p, v) == Join(Split(s, p), v)
    decreases |s|
  {
    if |s| < |p| {
    } else if s[..|p|] == p {
      var rest := Split(s[|p|..], p);
      ReplaceAllIsSplitJoin(s[|p|..], p, v);
      assert ([""] + rest)[1..] == rest;
    } else {
      ReplaceAllIsSplitJoin(s[1..], p, v);
      JoinExtendFirst(s[0], Split(s[1..], p), v);
    }
  }

  /** No piece of `s.split(p)` contains `p`. */
  lemma {:induction false} SplitPartsFree(s: string, p: string)
    requires p != []
    ensures forall j :: 0 <= j < |Split(s, p)| ==> !Contains(Split(s, p)[j], p)
    decreases |s|
  {
    if |s| < |p| {
      assert !Contains(s, p);
    } else if s[..|p|] == p {
      var rest := Split(s[|p|..], p);
      SplitPartsFree(s[|p|..], p);
      assert Split(s, p) == [""] + rest;
      forall j | 0 <= j < |Split(s, p)| ensures !Contains(Split(s, p)[j], p) {
        if j > 0 {
          assert Split(s, p)[j] == rest[j - 1];
        }
      }
    } else {
      var rest := Split(s[1..], p);
      SplitPartsFree(s[1..], p);
      var first := [s[0]] + rest[0];
      assert !Contains(first, p) by {
        if |first| >= |p| {
          assert first[..|p|] == s[..|p|];
        }
      }
      forall j | 0 <= j < |Split(s, p)| ensures !Contains(Split(s, p)[j], p) {
        if j > 0 {
          assert Split(s, p)[j] == rest[j];
        }
      }
    }
  }

  /** A window of `a + v + b` that overlaps `v` contains `p` only if `v`
      holds `p`'s first or last character or occurs strictly inside `p`. */
  lemma OverlapWindow(a: string, v: string, b: string, p: string, i: int)
    requires |p| >= 2 && v != []
    requires p[0] !in v && p[|p| - 1] !in v
    requires !Contains(p[1..|p| - 1], v)
    requires i < |a| + |v| && |a| < i + |p|
    ensures !OccursAt(a + v + b, p, i)
  {
    if OccursAt(a + v + b, p, i) {
      var lo, hi := |a|, |a| + |v|;
      if lo <= i {
        WindowStartsInside(a, v, b, p, i);
      } else if i + |p| <= hi {
        WindowEndsInside(a, v, b, p, i);
      } else {
        WindowSpans(a, v, b, p, i);
      }
    }
  }

  /** A window starting inside `v` starts with a character of `v`. */
  lemma WindowStartsInside(a: string, v: string, b: string, p: string, i: int)
    requires p != [] && |a| <= i < |a| + |v| && OccursAt(a + v + b, p, i)
    ensures p[0] in v
  {
    assert p[0] == (a + v + b)[i] == v[i - |a|];
  }

  /** A window ending inside `v` ends with a character of `v`. */
  lemma WindowEndsInside(a: string, v: string, b: string, p: string, i: int)
    requires p != [] && |a| < i + |p| <= |a| + |v| && OccursAt(a + v + b, p, i)
    ensures p[|p| - 1] in v
  {
    assert p[|p| - 1] == (a + v + b)[i + |p| - 1] == v[i + |p| - 1 - |a|];
  }

  /** A window holding all of `v` strictly inside has `v` inside `p`. */
  lemma WindowSpans(a: string, v: string, b: string, p: string, i: int)
    requires |p| >= 2 && i < |a| && |a| + |v| < i + |p| && OccursAt(a + v + b, p, i)
    ensures Contains(p[1..|p| - 1], v)
  {
    var s := a + v + b;
    var inner := p[1..|p| - 1];
    var at := |a| - i - 1;
    forall k | 0 <= k < |v| ensures inner[at + k] == v[k] {
      assert inner[at + k] == p[at + k + 1] == s[|a| + k];
    }
    assert OccursAt(inner, v, at);
    ContainsIff(inner, v);
  }

  /** No occurrence of `p` can straddle a `v` that shares neither `p`'s first
      nor its last character with it and does not occur inside `p`. */
  lemma NoStraddle(a: string, v: string, b: string, p: string)
    requires |p| >= 2 && v != []
    requires p[0] !in v && p[|p| - 1] !in v
    requires !Contains(p[1..|p| - 1], v)
    requires !Contains(a, p) && !Contains(b, p)
    ensures !Contains(a + v + b, p)
  {
    var s := a + v + b;
    var lo, hi := |a|, |a| + |v|;
    ContainsIff(a, p);
    ContainsIff(b, p);
    forall i ensures !OccursAt(s, p, i) {
      if i + |p| <= lo {
        if 0 <= i {
          assert s[i..i + |p|] == a[i..i + |p|];
          assert !OccursAt(a, p, i);
        }
      } else if i >= hi {
        if i + |p| <= |s| {
          assert s[i..i + |p|] == b[i - hi..i - hi + |p|];
          assert !OccursAt(b, p, i - hi);
        }
      } else {
        OverlapWindow(a, v, b, p, i);
      }
    }
    ContainsIff(s, p);
  }

  /** Joining pieces free of `p` with such a `v` yields a string free of `p`. */
  lemma {:induction false} JoinFree(parts: seq<string>, v: string, p: string)
    requires |p| >= 2 && v != []
    requires p[0] !in v && p[|p| - 1] !in v
    requires !Contains(p[1..|p| - 1], v)
    requires forall j :: 0 <= j < |parts| ==> !Contains(parts[j], p)
    ensures !Contains(Join(parts, v), p)
    decreases |parts|
  {
    if |parts| == 0 {
      assert !Contains("", p);
    } else if |parts| > 1 {
      JoinFree(parts[1..], v, p);
      NoStraddle(parts[0], v, Join(parts[1..], v), p);
    }
  }

  /** After `s.replace(p, v)` no occurrence of `p` is left, provided `v` is
      non-empty, holds neither `p`'s first nor its last character, and does
      not occur strictly inside `p`. */
  lemma ReplaceAllLeavesNoOccurrence(s: string, p: string, v: string)
    requires |p| >= 2 && v != []
    requires p[0] !in v && p[|p| - 1] !in v
    requires !Contains(p[1..|p| - 1], v)
    ensures !Contains(ReplaceAll(s, p, v), p)
  {
    ReplaceAllIsSplitJoin(s, p, v);
    SplitPartsFree(s, p);
    JoinFree(Split(s, p), v, p);
  }

  /** Replacing the one-character pattern `[c]` maps each character on its own. */
  lemma {:induction false} ReplaceCharAt(s: string, c: char, d: char)
    ensures |ReplaceAll(s, [c], [d])| == |s|
    ensures forall i :: 0 <= i < |s| ==>
              ReplaceAll(s, [c], [d])[i] == (if s[i] == c then d else s[i])
    decreases |s|
  {
    if |s| > 0 {
      ReplaceCharAt(s[1..], c, d);
      assert s[..1] == [s[0]];
      var r := ReplaceAll(s, [c], [d]);
      assert r == [if s[0] == c then d else s[0]] + ReplaceAll(s[1..], [c], [d]);
      forall i | 0 <= i < |s| ensures r[i] == (if s[i] == c then d else s[i]) {
        if i > 0 {
          assert r[i] == ReplaceAll(s[1..], [c], [d])[i - 1];
          assert s[1..][i - 1] == s[i];
        }
      }
    }
  }
}
