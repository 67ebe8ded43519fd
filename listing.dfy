/**
 * The key selection of renderMetadataList: `Object.keys(md).filter(k => !k.startsWith('_')).sort()`.
 * Array.prototype.sort with no comparator orders strings lexicographically by code unit.
 */
module Listing {

  /** Lexicographic order on strings, the order of the default sort. */
  predicate Less(a: string, b: string) {
    if a == [] then b != []
    else b != [] && (a[0] < b[0] || (a[0] == b[0] && Less(a[1..], b[1..])))
  }

  lemma {:induction false} LessIrreflexive(a: string)
    ensures !Less(a, a)
  {
    if a != [] {
      LessIrreflexive(a[1..]);
    }
  }

  lemma {:induction false} LessTransitive(a: string, b: string, c: string)
    requires Less(a, b) && Less(b, c)
    ensures Less(a, c)
  {
    if a != [] && a[0] == b[0] && b[0] == c[0] {
      LessTransitive(a[1..], b[1..], c[1..]);
    }
  }

  lemma {:induction false} LessTotal(a: string, b: string)
    requires a != b
    ensures Less(a, b) || Less(b, a)
  {
    if a != [] && b != [] && a[0] == b[0] {
      LessTotal(a[1..], b[1..]);
    }
  }

  lemma LessAsymmetric(a: string, b: string)
    requires Less(a, b)
    ensures !Less(b, a)
  {
    if Less(b, a) {
      LessTransitive(a, b, a);
      LessIrreflexive(a);
    }
  }

  /** The least element of a set of keys. */
  predicate IsLeast(m: string, ks: set<string>) {
    m in ks && forall x :: x in ks && x != m ==> Less(m, x)
  }

  /** Every finite non-empty set of keys has a least element. */
  lemma {:induction false} LeastExists(ks: set<string>)
    requires ks != {}
    ensures exists m :: IsLeast(m, ks)
    decreases ks
  {
    var y :| y in ks;
    var rest := ks - {y};
    if rest == {} {
      assert ks == {y};
      assert IsLeast(y, ks);
    } else {
      LeastExists(rest);
      var m :| IsLeast(m, rest);
      if Less(y, m) {
        forall x | x in ks && x != y ensures Less(y, x) {
          if x != m { LessTransitive(y, m, x); }
        }
        assert IsLeast(y, ks);
      } else {
        LessTotal(y, m);
        assert IsLeast(m, ks);
      }
    }
  }

  ghost predicate StrictlyAscending(s: seq<string>) {
    forall i, j :: 0 <= i < j < |s| ==> Less(s[i], s[j])
  }

  /** A set of keys has at most one least element. */
  lemma LeastUnique(ks: set<string>)
    ensures forall m1, m2 :: IsLeast(m1, ks) && IsLeast(m2, ks) ==> m1 == m2
  {
    forall m1, m2 | IsLeast(m1, ks) && IsLeast(m2, ks) ensures m1 == m2 {
      if m1 != m2 {
        LessAsymmetric(m1, m2);
      }
    }
  }

  /** The keys of a set listed in ascending order: what sort() makes of them. */
  function Sorted(ks: set<string>): (r: seq<string>)
    ensures StrictlyAscending(r)
    ensures forall k :: k in r <==> k in ks
    ensures |r| == |ks|
    decreases ks
  {
    if ks == {} then []
    else
      LeastExists(ks);
      LeastUnique(ks);
      var m :| IsLeast(m, ks);
      var rest := Sorted(ks - {m});
      assert forall j :: 0 <= j < |rest| ==> Less(m, rest[j]) by {
        forall j | 0 <= j < |rest| ensures Less(m, rest[j]) {
          assert rest[j] in ks - {m};
        }
      }
      [m] + rest
  }

  /** k.startsWith('_') */
  predicate Hidden(k: string) {
    "_" <= k
  }

  /**
   * The keys renderMetadataList shows, in the order it shows them: strictly ascending,
   * and exactly the keys of md that do not begin with `_`.
   */
  function DisplayKeys<V>(md: map<string, V>): (keys: seq<string>)
    ensures StrictlyAscending(keys)
    ensures forall k :: k in keys <==> k in md && !Hidden(k)
    ensures forall i :: 0 <= i < |keys| ==> !Hidden(keys[i])
  {
    Sorted(set k | k in md && !Hidden(k))
  }

  /** Two ascending listings of the same keys are the same listing. */
  lemma {:induction false} AscendingUnique(a: seq<string>, b: seq<string>)
    requires StrictlyAscending(a) && StrictlyAscending(b)
    requires forall k :: k in a <==> k in b
    ensures a == b
    decreases |a|
  {
    if a != [] {
      assert a[0] in b;
    }
    if b != [] {
      assert b[0] in a;
    }
    if a != [] && b != [] {
      assert a[0] == b[0] by {
        if a[0] != b[0] {
          assert a[0] in a && b[0] in b;
          var i :| 0 <= i < |b| && b[i] == a[0];
          var j :| 0 <= j < |a| && a[j] == b[0];
          assert i > 0 && j > 0;
          LessAsymmetric(a[0], a[j]);
        }
      }
      forall k ensures k in a[1..] <==> k in b[1..] {
        NotFirst(a, k);
        NotFirst(b, k);
      }
      AscendingUnique(a[1..], b[1..]);
      assert a == [a[0]] + a[1..] && b == [b[0]] + b[1..];
    }
  }

  /** In an ascending listing, the elements after the first are the other elements. */
  lemma NotFirst(a: seq<string>, k: string)
    requires StrictlyAscending(a) && a != []
    ensures k in a[1..] <==> k in a && k != a[0]
  {
    if k in a[1..] {
      var i :| 0 <= i < |a[1..]| && a[1..][i] == k;
      LessIrreflexive(a[0]);
      assert Less(a[0], a[i + 1]);
    }
    if k in a && k != a[0] {
      var i :| 0 <= i < |a| && a[i] == k;
      assert a[1..][i - 1] == k;
    }
  }

  /**
   * The listing is determined by the visible keys alone: any ascending listing of them is it,
   * and two metadata objects with the same visible keys show the same list.
   */
  lemma DisplayKeysUnique<V>(md: map<string, V>, listing: seq<string>)
    requires StrictlyAscending(listing)
    requires forall k :: k in listing <==> k in md && !Hidden(k)
    ensures DisplayKeys(md) == listing
  {
    AscendingUnique(DisplayKeys(md), listing);
  }

  /** The stored PDF handle (key `_pdfDoc`) is never listed. */
  lemma PdfHandleNeverShown<V>(md: map<string, V>)
    ensures "_pdfDoc" !in DisplayKeys(md)
  {
  }
}
