/** JavaScript's `String.prototype.split` with a one-character separator, and
    its inverse `Array.prototype.join`. `split` cuts at EVERY occurrence of the
    separator, so doubled, leading or trailing separators give empty fields,
    and the empty string splits into one empty field. */
module Text {

  /** `parts.join(sep)`. */
  function Join(parts: seq<string>, sep: char): string
    requires |parts| >= 1
    decreases |parts|
  {
    if |parts| == 1 then parts[0] else parts[0] + [sep] + Join(parts[1..], sep)
  }

  /** No field contains the separator. */
  predicate SeparatorFree(parts: seq<string>, sep: char)
  {
    forall i :: 0 <= i < |parts| ==> sep !in parts[i]
  }

  /** `s.split(sep)`: the unique list of separator-free fields whose join is `s`. */
  function Split(s: string, sep: char): (parts: seq<string>)
    ensures |parts| >= 1
    ensures Join(parts, sep) == s
    ensures SeparatorFree(parts, sep)
    decreases |s|
  {
    if |s| == 0 then [""]
    else if s[0] == sep then [""] + Split(s[1..], sep)
    else
      var rest := Split(s[1..], sep);
      [[s[0]] + rest[0]] + rest[1..]
  }

  /** Splitting a joined list of separator-free fields gives the fields back:
      together with Split's own contract, `Split` and `Join` are inverse. */
  lemma {:induction false} SplitJoin(parts: seq<string>, sep: char)
    requires |parts| >= 1
    requires SeparatorFree(parts, sep)
    ensures Split(Join(parts, sep), sep) == parts
    decreases |parts|, |parts[0]|
  {
    var p := parts[0];
    if |p| == 0 {
      if |parts| > 1 {
        assert Join(parts, sep) == [sep] + Join(parts[1..], sep);
        SplitJoin(parts[1..], sep);
      }
    } else {
      var shorter := [p[1..]] + parts[1..];
      assert SeparatorFree(shorter, sep) by {
        forall i | 0 <= i < |shorter| ensures sep !in shorter[i] {
          if i == 0 {
            assert forall c :: c in p[1..] ==> c in p;
          } else {
            assert shorter[i] == parts[i];
          }
        }
      }
      SplitJoin(shorter, sep);
      assert shorter[1..] == parts[1..];
      var j := Join(parts, sep);
      assert j == [p[0]] + Join(shorter, sep) by {
        if |parts| == 1 {
          assert p == [p[0]] + p[1..];
        } else {
          assert p + [sep] + Join(parts[1..], sep)
              == [p[0]] + (p[1..] + [sep] + Join(parts[1..], sep));
        }
      }
      assert j[0] == p[0] && p[0] in p;
      assert j[1..] == Join(shorter, sep);
      assert [p[0]] + p[1..] == p;
    }
  }

  /** A string splits into a single field exactly when it has no separator. */
  lemma {:induction false} SplitSingleField(s: string, sep: char)
    ensures |Split(s, sep)| == 1 <==> sep !in s
    decreases |s|
  {
    if |s| > 0 {
      SplitSingleField(s[1..], sep);
      assert s == [s[0]] + s[1..];
    }
  }

  /** The first field of `w + [sep] + rest` is `w`, and the remaining fields
      are those of `rest`, when `w` holds no separator. */
  lemma {:induction false} SplitAfterWord(w: string, sep: char, rest: string)
    requires sep !in w
    ensures Split(w + [sep] + rest, sep) == [w] + Split(rest, sep)
    decreases |w|
  {
    var s := w + [sep] + rest;
    if |w| == 0 {
      assert s == [sep] + rest;
      assert s[1..] == rest;
    } else {
      assert w[0] in w;
      assert s[1..] == w[1..] + [sep] + rest;
      assert forall c :: c in w[1..] ==> c in w;
      SplitAfterWord(w[1..], sep, rest);
      assert [w[0]] + w[1..] == w;
    }
  }

  /** A separator-free prefix followed by nothing or by a separator is the
      whole first field. */
  lemma {:induction false} FirstFieldIsWord(w: string, sep: char, tail: string)
    requires sep !in w
    requires tail == [] || tail[0] == sep
    ensures Split(w + tail, sep)[0] == w
    decreases |w|
  {
    if |w| == 0 {
      assert w + tail == tail;
    } else {
      var s := w + tail;
      assert s[0] == w[0] && w[0] in w;
      assert s[1..] == w[1..] + tail;
      assert forall c :: c in w[1..] ==> c in w;
      FirstFieldIsWord(w[1..], sep, tail);
      assert [w[0]] + w[1..] == w;
    }
  }

  /** Lexicographic order of strings by character code, the order of
      PostgreSQL's "C" collation: a prefix comes first. */
  predicate LexLeq(a: string, b: string)
    decreases |a|
  {
    |a| == 0 || (|b| > 0 && (a[0] < b[0] || (a[0] == b[0] && LexLeq(a[1..], b[1..]))))
  }

  /** Any two strings are ordered one way or the other. */
  lemma {:induction false} LexLeqTotal(a: string, b: string)
    ensures LexLeq(a, b) || LexLeq(b, a)
    decreases |a|
  {
    if |a| > 0 && |b| > 0 && a[0] == b[0] {
      LexLeqTotal(a[1..], b[1..]);
    }
  }

  lemma {:induction false} LexLeqTransitive(a: string, b: string, c: string)
    requires LexLeq(a, b) && LexLeq(b, c)
    ensures LexLeq(a, c)
    decreases |a|
  {
    if |a| > 0 && a[0] == b[0] && b[0] == c[0] {
      LexLeqTransitive(a[1..], b[1..], c[1..]);
    }
  }

  /** Only equal strings are ordered both ways. */
  lemma {:induction false} LexLeqAntisymmetric(a: string, b: string)
    requires LexLeq(a, b) && LexLeq(b, a)
    ensures a == b
    decreases |a|
  {
    if |a| > 0 {
      LexLeqAntisymmetric(a[1..], b[1..]);
      assert a == [a[0]] + a[1..] && b == [b[0]] + b[1..];
    }
  }
}
