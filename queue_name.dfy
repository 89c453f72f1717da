/**
  A grid-engine queue instance is named `queue@host` (for example `all.q@node001`).
  The idle sweep recovers the host of a job with Python's `queue_name.split('@')[1]`:
  this module models `str.split` with an explicit separator, its inverse `join`,
  and the host extraction, including the IndexError raised when there is no `@`.
*/
module QueueName {
  import opened Wrappers

  const At: char := '@'

  /** Python's `s.split(sep)`: the pieces between separators, empty pieces kept. */
  function Split(s: string, sep: char): (parts: seq<string>)
    ensures |parts| >= 1
    decreases |s|
  {
    if |s| == 0 then [""]
    else
      var rest := Split(s[1..], sep);
      if s[0] == sep then [""] + rest
      else [[s[0]] + rest[0]] + rest[1..]
  }

  /** Python's `sep.join(parts)` for a non-empty list `parts`. */
  function Join(parts: seq<string>, sep: char): string
    requires |parts| >= 1
    decreases |parts|
  {
    if |parts| == 1 then parts[0]
    else parts[0] + [sep] + Join(parts[1..], sep)
  }

  /** Number of occurrences of `c` in `s`. */
  function Count(s: string, c: char): nat
  {
    if |s| == 0 then 0
    else (if s[0] == c then 1 else 0) + Count(s[1..], c)
  }

  ghost predicate FreeOf(parts: seq<string>, sep: char)
  {
    forall i :: 0 <= i < |parts| ==> sep !in parts[i]
  }

  /** Splitting yields one more piece than there are separators. */
  lemma {:induction false} SplitLength(s: string, sep: char)
    ensures |Split(s, sep)| == Count(s, sep) + 1
    decreases |s|
  {
    if |s| > 0 {
      SplitLength(s[1..], sep);
    }
  }

  /** No piece of a split contains the separator. */
  lemma {:induction false} SplitFreeOf(s: string, sep: char)
    ensures FreeOf(Split(s, sep), sep)
    decreases |s|
  {
    if |s| > 0 {
      SplitFreeOf(s[1..], sep);
      var rest := Split(s[1..], sep);
      if s[0] != sep {
        assert sep !in rest[0];
        var parts := Split(s, sep);
        forall i | 0 <= i < |parts| ensures sep !in parts[i] {
          if i > 0 {
            assert parts[i] == rest[i];
          }
        }
      }
    }
  }

  lemma {:induction false} JoinCons(c: char, parts: seq<string>, sep: char)
    requires |parts| >= 1
    ensures Join([[c] + parts[0]] + parts[1..], sep) == [c] + Join(parts, sep)
  {
  }

  /** Joining the pieces with the separator gives back the original string. */
  lemma {:induction false} JoinSplit(s: string, sep: char)
    ensures Join(Split(s, sep), sep) == s
    decreases |s|
  {
    if |s| > 0 {
      var rest := Split(s[1..], sep);
      JoinSplit(s[1..], sep);
      if s[0] == sep {
        assert ([""] + rest)[1..] == rest;
      } else {
        JoinCons(s[0], rest, sep);
      }
      assert s == [s[0]] + s[1..];
    }
  }

  /** A piece without the separator splits to itself. */
  lemma {:induction false} SplitWhole(p: string, sep: char)
    requires sep !in p
    ensures Split(p, sep) == [p]
    decreases |p|
  {
    if |p| > 0 {
      SplitWhole(p[1..], sep);
      assert [p[0]] + p[1..] == p;
    }
  }

  /** Splitting at the first separator peels off the piece before it. */
  lemma {:induction false} SplitAtFirst(p: string, sep: char, rest: string)
    requires sep !in p
    ensures Split(p + [sep] + rest, sep) == [p] + Split(rest, sep)
    decreases |p|
  {
    var s := p + [sep] + rest;
    if |p| == 0 {
      assert s[1..] == rest;
    } else {
      assert s[1..] == p[1..] + [sep] + rest;
      SplitAtFirst(p[1..], sep, rest);
      assert [p[0]] + p[1..] == p;
    }
  }

  /** Splitting a join of separator-free pieces gives back the pieces. */
  lemma {:induction false} SplitJoin(parts: seq<string>, sep: char)
    requires |parts| >= 1 && FreeOf(parts, sep)
    ensures Split(Join(parts, sep), sep) == parts
    decreases |parts|
  {
    if |parts| == 1 {
      assert sep !in parts[0];
      SplitWhole(parts[0], sep);
    } else {
      assert sep !in parts[0];
      SplitJoin(parts[1..], sep);
      SplitAtFirst(parts[0], sep, Join(parts[1..], sep));
      assert [parts[0]] + parts[1..] == parts;
    }
  }

  /**
    `queue_name.split('@')[1]`: the host of a job, or None where Python raises
    IndexError because the name has no `@`.
  */
  function HostOf(queueName: string): (host: Option<string>)
    ensures host.Some? <==> At in queueName
  {
    SplitLength(queueName, At);
    CountPositive(queueName, At);
    var parts := Split(queueName, At);
    if |parts| >= 2 then Some(parts[1]) else None
  }

  lemma {:induction false} CountPositive(s: string, c: char)
    ensures Count(s, c) > 0 <==> c in s
    decreases |s|
  {
    if |s| > 0 {
      CountPositive(s[1..], c);
      assert c in s <==> s[0] == c || c in s[1..];
    }
  }

  /**
    `h` is the text between the first `@` of `q` and the next `@` (or the end).
  */
  ghost predicate IsHostField(q: string, h: string)
  {
    exists i, j :: HostFieldAt(q, h, i, j)
  }

  /** `q[i]` is the first `@` of `q`, and `h` runs from there to `j`, the next `@` or the end. */
  ghost predicate HostFieldAt(q: string, h: string, i: int, j: int)
  {
    0 <= i < j <= |q| && q[i] == At && At !in q[..i]
      && h == q[i + 1..j] && At !in h && (j == |q| || q[j] == At)
  }

  /** The host of a queue name is exactly the field after its first `@`. */
  lemma HostOfIsField(q: string, h: string)
    ensures HostOf(q) == Some(h) <==> IsHostField(q, h)
  {
    if HostOf(q) == Some(h) {
      HostOfField(q);
    }
    if IsHostField(q, h) {
      var i, j :| HostFieldAt(q, h, i, j);
      FieldHostOf(q, i, j);
    }
  }

  lemma {:induction false} HostOfField(q: string)
    requires HostOf(q).Some?
    ensures IsHostField(q, HostOf(q).value)
  {
    var parts := Split(q, At);
    var h := parts[1];
    assert HostOf(q).value == h;
    JoinSplit(q, At);
    SplitFreeOf(q, At);
    assert At !in parts[0] && At !in h;
    var i := |parts[0]|;
    var tail := Join(parts[1..], At);
    assert q == parts[0] + [At] + tail;
    assert q[..i] == parts[0];
    assert q[i] == At;
    var j := i + 1 + |h|;
    if |parts| == 2 {
      assert tail == h;
      assert j == |q|;
      assert q[i + 1..j] == h;
    } else {
      assert tail == h + [At] + Join(parts[2..], At) by {
        assert parts[1..][1..] == parts[2..];
      }
      assert q[i + 1..j] == h;
      assert q[j] == At;
    }
    assert HostFieldAt(q, h, i, j);
  }

  lemma {:induction false} FieldHostOf(q: string, i: int, j: int)
    requires 0 <= i < j <= |q| && q[i] == At && At !in q[..i]
    requires At !in q[i + 1..j] && (j == |q| || q[j] == At)
    ensures HostOf(q) == Some(q[i + 1..j])
  {
    var p, h := q[..i], q[i + 1..j];
    assert q == p + [At] + q[i + 1..];
    SplitAtFirst(p, At, q[i + 1..]);
    if j == |q| {
      assert q[i + 1..] == h;
      SplitWhole(h, At);
    } else {
      assert q[i + 1..] == h + [At] + q[j + 1..];
      SplitAtFirst(h, At, q[j + 1..]);
    }
  }
}
