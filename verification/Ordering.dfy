/** The orders std::map and std::filesystem::path put on strings and on lists of path components. */
module Ordering {

  predicate Less(a: string, b: string) {
    b != [] && (a == [] || a[0] < b[0] || (a[0] == b[0] && Less(a[1..], b[1..])))
  }

  /** Where two strings first differ: the one that ends there, or has the smaller character, comes first. */
  ghost predicate DifferAt(a: string, b: string, i: nat) {
    i <= |a| && i < |b| && a[..i] == b[..i] && (i == |a| || a[i] < b[i])
  }

  lemma SameHead<T>(a: seq<T>, b: seq<T>, i: nat)
    ensures 0 < i <= |a| && i <= |b| && a[..i] == b[..i] ==> a[0] == b[0]
  {
    assert 0 < i <= |a| && i <= |b| ==> a[..i][0] == a[0] && b[..i][0] == b[0];
  }

  lemma {:induction false} LessExactly(a: string, b: string)
    ensures Less(a, b) <==> exists i: nat :: DifferAt(a, b, i)
  {
    if a != [] && b != [] && a[0] == b[0] {
      LessExactly(a[1..], b[1..]);
      if Less(a[1..], b[1..]) {
        var i: nat :| DifferAt(a[1..], b[1..], i);
        assert a[..i + 1] == [a[0]] + a[1..][..i] && b[..i + 1] == [b[0]] + b[1..][..i];
        assert DifferAt(a, b, i + 1);
      }
      forall i: nat | DifferAt(a, b, i) ensures Less(a[1..], b[1..]) {
        assert a[..i] == b[..i];
        assert i > 0 && a[1..][..i - 1] == a[..i][1..] && b[1..][..i - 1] == b[..i][1..];
        assert DifferAt(a[1..], b[1..], i - 1);
      }
    } else if Less(a, b) {
      assert DifferAt(a, b, 0);
    } else {
      forall i: nat ensures !DifferAt(a, b, i) {
        SameHead(a, b, i);
      }
    }
  }

  lemma {:induction false} LessIrreflexive(a: string)
    ensures !Less(a, a)
  {
    if a != [] {
      LessIrreflexive(a[1..]);
    }
  }

  lemma {:induction false} LessTransitive(a: string, b: string, c: string)
    requires Less(a, b) && Less(b, c)
    ensures Less(a, c)
  {
    if a != [] && a[0] == b[0] == c[0] {
      LessTransitive(a[1..], b[1..], c[1..]);
    }
  }

  lemma {:induction false} LessTotal(a: string, b: string)
    ensures Less(a, b) || a == b || Less(b, a)
  {
    if a != [] && b != [] && a[0] == b[0] {
      LessTotal(a[1..], b[1..]);
      assert a == [a[0]] + a[1..] && b == [b[0]] + b[1..];
    }
  }

  lemma LessAsymmetric(a: string, b: string)
    requires Less(a, b)
    ensures !Less(b, a) && a != b
  {
    LessIrreflexive(a);
    if Less(b, a) {
      LessTransitive(a, b, a);
    }
  }

  predicate PathLess(a: seq<string>, b: seq<string>) {
    b != [] && (a == [] || Less(a[0], b[0]) || (a[0] == b[0] && PathLess(a[1..], b[1..])))
  }

  /** Where two paths first differ: the one that ends there, or has the smaller component, comes first. */
  ghost predicate PathsDifferAt(a: seq<string>, b: seq<string>, i: nat) {
    i <= |a| && i < |b| && a[..i] == b[..i] && (i == |a| || Less(a[i], b[i]))
  }

  lemma {:induction false} PathLessExactly(a: seq<string>, b: seq<string>)
    ensures PathLess(a, b) <==> exists i: nat :: PathsDifferAt(a, b, i)
  {
    hide Less;
    if a != [] && b != [] && a[0] == b[0] {
      LessIrreflexive(a[0]);
      PathLessExactly(a[1..], b[1..]);
      if PathLess(a[1..], b[1..]) {
        var i: nat :| PathsDifferAt(a[1..], b[1..], i);
        assert a[..i + 1] == [a[0]] + a[1..][..i] && b[..i + 1] == [b[0]] + b[1..][..i];
        assert PathsDifferAt(a, b, i + 1);
      }
      forall i: nat | PathsDifferAt(a, b, i) ensures PathLess(a[1..], b[1..]) {
        assert a[..i] == b[..i];
        assert i > 0 && a[1..][..i - 1] == a[..i][1..] && b[1..][..i - 1] == b[..i][1..];
        assert PathsDifferAt(a[1..], b[1..], i - 1);
      }
    } else if PathLess(a, b) {
      assert PathsDifferAt(a, b, 0);
    } else {
      forall i: nat ensures !PathsDifferAt(a, b, i) {
        SameHead(a, b, i);
      }
    }
  }

  lemma {:induction false} PathLessIrreflexive(a: seq<string>)
    ensures !PathLess(a, a)
  {
    if a != [] {
      LessIrreflexive(a[0]);
      PathLessIrreflexive(a[1..]);
    }
  }

  /** A common prefix does not matter. */
  lemma {:induction false} PathLessPrefix(prefix: seq<string>, a: seq<string>, b: seq<string>)
    ensures PathLess(prefix + a, prefix + b) == PathLess(a, b)
  {
    if prefix == [] {
      assert prefix + a == a && prefix + b == b;
    } else {
      LessIrreflexive(prefix[0]);
      assert (prefix + a)[1..] == prefix[1..] + a && (prefix + b)[1..] == prefix[1..] + b;
      PathLessPrefix(prefix[1..], a, b);
    }
  }

  lemma {:induction false} PathLessTransitive(a: seq<string>, b: seq<string>, c: seq<string>)
    requires PathLess(a, b) && PathLess(b, c)
    ensures PathLess(a, c)
  {
    if a != [] {
      if Less(a[0], b[0]) && Less(b[0], c[0]) {
        LessTransitive(a[0], b[0], c[0]);
      }
      if a[0] == b[0] == c[0] {
        LessIrreflexive(a[0]);
        PathLessTransitive(a[1..], b[1..], c[1..]);
      }
    }
  }

  lemma PathLessAsymmetric(a: seq<string>, b: seq<string>)
    requires PathLess(a, b)
    ensures !PathLess(b, a) && a != b
  {
    PathLessIrreflexive(a);
    if PathLess(b, a) {
      PathLessTransitive(a, b, a);
    }
  }

  lemma {:induction false} PathLessTotal(a: seq<string>, b: seq<string>)
    ensures PathLess(a, b) || a == b || PathLess(b, a)
  {
    if a != [] && b != [] {
      LessTotal(a[0], b[0]);
      if a[0] == b[0] {
        PathLessTotal(a[1..], b[1..]);
        assert a == [a[0]] + a[1..] && b == [b[0]] + b[1..];
      }
    }
  }
}
