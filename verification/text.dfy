/**
 * Joining strings with a separator and splitting them back apart, the two
 * string operations the assessed-value summary and the thousands grouping
 * are built from.
 */
module Text {

  /**
   * The parts glued together with nothing in between. This is
   * `JoinWith(parts, "")` (lemma `ConcatIsJoinEmpty`), kept as its own
   * definition because its single recursive case unfolds more simply in the
   * proofs about digit groups and comma removal.
   */
  function Concat(parts: seq<string>): string
  {
    if |parts| == 0 then "" else parts[0] + Concat(parts[1..])
  }

  /** `sep.join(parts)`: the parts with `sep` between neighbours (empty for no parts). */
  function JoinWith(parts: seq<string>, sep: string): string
  {
    if |parts| == 0 then ""
    else if |parts| == 1 then parts[0]
    else parts[0] + sep + JoinWith(parts[1..], sep)
  }

  /** Concatenation is joining with the empty separator. */
  lemma {:induction false} ConcatIsJoinEmpty(parts: seq<string>)
    ensures Concat(parts) == JoinWith(parts, "")
    decreases |parts|
  {
    if |parts| > 1 {
      ConcatIsJoinEmpty(parts[1..]);
      assert parts[0] + "" == parts[0];
    } else if |parts| == 1 {
      assert Concat(parts[1..]) == "";
      assert parts[0] + "" == parts[0];
    }
  }

  /** `s.split(sep)`: the maximal pieces of `s` between occurrences of `sep`, scanning left to right. */
  function SplitOn(s: string, sep: string): (r: seq<string>)
    requires |sep| > 0
    ensures |r| >= 1
    decreases |s|
  {
    if |s| == 0 then [""]
    else if |sep| <= |s| && s[..|sep|] == sep then [""] + SplitOn(s[|sep|..], sep)
    else
      var rest := SplitOn(s[1..], sep);
      [[s[0]] + rest[0]] + rest[1..]
  }

  /** `s` with every occurrence of `c` deleted. */
  function RemoveChar(s: string, c: char): (r: string)
    ensures c !in r
    ensures forall k :: 0 <= k < |r| ==> r[k] in s
  {
    if |s| == 0 then ""
    else if s[0] == c then RemoveChar(s[1..], c)
    else [s[0]] + RemoveChar(s[1..], c)
  }

  /** No part contains the character `c`. */
  predicate Avoids(parts: seq<string>, c: char)
  {
    forall k :: 0 <= k < |parts| ==> c !in parts[k]
  }

  lemma {:induction false} ConcatAppend(a: seq<string>, b: seq<string>)
    ensures Concat(a + b) == Concat(a) + Concat(b)
    decreases |a|
  {
    if |a| == 0 {
      assert a + b == b;
    } else {
      assert (a + b)[1..] == a[1..] + b;
      ConcatAppend(a[1..], b);
    }
  }

  /** Splitting a text that starts with a separator-free prefix `p` glues `p` onto the first piece. */
  lemma {:induction false} SplitPrefix(p: string, t: string, sep: string)
    requires |sep| > 0 && sep[0] !in p
    ensures SplitOn(p + t, sep) == [p + SplitOn(t, sep)[0]] + SplitOn(t, sep)[1..]
    decreases |p|
  {
    var x := SplitOn(t, sep);
    if |p| == 0 {
      assert p + t == t;
      assert p + x[0] == x[0];
      assert [x[0]] + x[1..] == x;
    } else {
      var s := p + t;
      assert s[0] == p[0] && s[0] != sep[0];
      assert s[1..] == p[1..] + t;
      SplitPrefix(p[1..], t, sep);
      assert [p[0]] + (p[1..] + x[0]) == p + x[0];
    }
  }

  /** Splitting a text that starts with the separator yields an empty first piece. */
  lemma SplitSeparatorFirst(sep: string, t: string)
    requires |sep| > 0
    ensures SplitOn(sep + t, sep) == [""] + SplitOn(t, sep)
  {
    var s := sep + t;
    assert s[..|sep|] == sep;
    assert s[|sep|..] == t;
  }

  /** Split undoes join whenever no part contains the separator's first character. */
  lemma {:induction false} SplitJoin(parts: seq<string>, sep: string)
    requires |parts| >= 1 && |sep| > 0
    requires Avoids(parts, sep[0])
    ensures SplitOn(JoinWith(parts, sep), sep) == parts
    decreases |parts|
  {
    var p := parts[0];
    if |parts| == 1 {
      SplitPrefix(p, "", sep);
      assert p + "" == p;
    } else {
      var tail := JoinWith(parts[1..], sep);
      assert JoinWith(parts, sep) == p + (sep + tail);
      SplitPrefix(p, sep + tail, sep);
      SplitSeparatorFirst(sep, tail);
      SplitJoin(parts[1..], sep);
      assert p + "" == p;
      assert [p] + parts[1..] == parts;
    }
  }

  lemma {:induction false} RemoveCharAppend(a: string, b: string, c: char)
    ensures RemoveChar(a + b, c) == RemoveChar(a, c) + RemoveChar(b, c)
    decreases |a|
  {
    if |a| == 0 {
      assert a + b == b;
    } else {
      assert (a + b)[0] == a[0];
      assert (a + b)[1..] == a[1..] + b;
      RemoveCharAppend(a[1..], b, c);
    }
  }

  lemma {:induction false} RemoveCharAbsent(s: string, c: char)
    requires c !in s
    ensures RemoveChar(s, c) == s
    decreases |s|
  {
    if |s| > 0 {
      assert s[1..] + [] == s[1..];
      assert c !in s[1..] by {
        forall k | 0 <= k < |s[1..]| ensures s[1..][k] != c {
          assert s[1..][k] == s[k + 1];
        }
      }
      RemoveCharAbsent(s[1..], c);
      assert [s[0]] + s[1..] == s;
    }
  }

  /** Deleting the separator character from a join gives the plain concatenation of the parts. */
  lemma {:induction false} RemoveJoin(parts: seq<string>, c: char)
    requires Avoids(parts, c)
    ensures RemoveChar(JoinWith(parts, [c]), c) == Concat(parts)
    decreases |parts|
  {
    if |parts| == 0 {
    } else if |parts| == 1 {
      RemoveCharAbsent(parts[0], c);
      assert Concat(parts[1..]) == "";
      assert parts[0] + "" == parts[0];
    } else {
      var tail := JoinWith(parts[1..], [c]);
      assert JoinWith(parts, [c]) == parts[0] + ([c] + tail);
      RemoveCharAppend(parts[0], [c] + tail, c);
      RemoveCharAbsent(parts[0], c);
      assert ([c] + tail)[1..] == tail;
      RemoveJoin(parts[1..], c);
    }
  }

  /** Splitting on a single character leaves no piece containing it. */
  lemma {:induction false} SplitAvoids(s: string, c: char)
    ensures Avoids(SplitOn(s, [c]), c)
    decreases |s|
  {
    if |s| > 0 {
      SplitAvoids(s[1..], c);
      var rest := SplitOn(s[1..], [c]);
      if !(s[..1] == [c]) {
        assert s[0] != c;
        var r := SplitOn(s, [c]);
        assert r == [[s[0]] + rest[0]] + rest[1..];
        forall k | 0 <= k < |r| ensures c !in r[k] {
          if k > 0 {
            assert r[k] == rest[k];
          }
        }
      }
    }
  }

  lemma JoinConsFirst(a: string, b: string, rest: seq<string>, sep: string)
    ensures JoinWith([a + b] + rest, sep) == a + JoinWith([b] + rest, sep)
  {
    if |rest| > 0 {
      assert ([a + b] + rest)[1..] == rest;
      assert ([b] + rest)[1..] == rest;
    }
  }

  /** Join undoes split: nothing of the text is lost. */
  lemma {:induction false} JoinSplit(s: string, sep: string)
    requires |sep| > 0
    ensures JoinWith(SplitOn(s, sep), sep) == s
    decreases |s|
  {
    if |s| > 0 {
      if |sep| <= |s| && s[..|sep|] == sep {
        var rest := SplitOn(s[|sep|..], sep);
        JoinSplit(s[|sep|..], sep);
        assert SplitOn(s, sep) == [""] + rest;
        assert ([""] + rest)[1..] == rest;
        assert s == sep + s[|sep|..];
      } else {
        var rest := SplitOn(s[1..], sep);
        JoinSplit(s[1..], sep);
        assert SplitOn(s, sep) == [[s[0]] + rest[0]] + rest[1..];
        JoinConsFirst([s[0]], rest[0], rest[1..], sep);
        assert [rest[0]] + rest[1..] == rest;
        assert s == [s[0]] + s[1..];
      }
    }
  }
}
