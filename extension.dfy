/**
 * The extension expression of both handlers: `(name.split('.').pop() || '').toLowerCase()`.
 * split('.') always yields at least one piece, so pop() returns a string and the `|| ''`
 * fallback changes nothing: the extension is the last dot-separated piece, lower-cased.
 */
module FileExtension {
  import opened Strings

  /** Joins pieces back together with a `.` between neighbours (Array.prototype.join('.')). */
  function JoinWithDot(parts: seq<string>): string
    requires |parts| >= 1
  {
    if |parts| == 1 then parts[0] else parts[0] + "." + JoinWithDot(parts[1..])
  }

  /** String.prototype.split('.'): the dot-free pieces between the dots, which join back to s. */
  function SplitOnDot(s: string): (parts: seq<string>)
    ensures |parts| >= 1
    ensures forall i :: 0 <= i < |parts| ==> '.' !in parts[i]
    ensures JoinWithDot(parts) == s
  {
    if s == [] then [[]]
    else
      var rest := SplitOnDot(s[1..]);
      if s[0] == '.' then
        assert JoinWithDot([[]] + rest) == "." + JoinWithDot(rest) by {
          assert ([[]] + rest)[1..] == rest;
        }
        [[]] + rest
      else
        var parts := [[s[0]] + rest[0]] + rest[1..];
        assert JoinWithDot(parts) == [s[0]] + JoinWithDot(rest) by {
          if |rest| > 1 {
            assert parts[1..] == rest[1..];
          }
        }
        parts
  }

  /** The last piece of split('.'), before lower-casing. */
  function LastPiece(name: string): string {
    var parts := SplitOnDot(name);
    parts[|parts| - 1]
  }

  /** The extension the read and save handlers dispatch on. */
  function Extension(name: string): string {
    ToLower(LastPiece(name))
  }

  /** Joining ends with the last piece, preceded by a dot when there is more than one piece. */
  lemma {:induction false} JoinEndsWithLast(parts: seq<string>)
    requires |parts| >= 1
    ensures var j, last := JoinWithDot(parts), parts[|parts| - 1];
      (|j| >= |last| && j[|j| - |last|..] == last
       && (|parts| > 1 ==> |j| > |last| && j[|j| - |last| - 1] == '.'))
  {
    if |parts| > 1 {
      JoinEndsWithLast(parts[1..]);
      var tail := JoinWithDot(parts[1..]);
      assert JoinWithDot(parts) == (parts[0] + ".") + tail;
    }
  }

  /** The last piece is the suffix of the name after its last dot (the whole name when there is none). */
  lemma LastPieceIsSuffix(name: string)
    ensures var last := LastPiece(name);
      (|last| <= |name| && name[|name| - |last|..] == last && '.' !in last
       && (|last| < |name| ==> name[|name| - |last| - 1] == '.'))
  {
    var parts := SplitOnDot(name);
    JoinEndsWithLast(parts);
  }

  /**
   * The extension is the lower-cased text after the last dot: for the one position k where
   * the dot-free tail name[k..] begins right after a dot (or at the start of a dot-free name).
   */
  lemma ExtensionIsTextAfterLastDot(name: string, k: nat)
    requires k <= |name| && '.' !in name[k..]
    requires k == 0 || name[k - 1] == '.'
    ensures Extension(name) == ToLower(name[k..])
    ensures '.' !in Extension(name)
  {
    LastPieceIsSuffix(name);
    var last := LastPiece(name);
    var k0 := |name| - |last|;
    assert k == k0;
    forall i | 0 <= i < |ToLower(last)| ensures ToLower(last)[i] != '.' {
      assert last[i] != '.';
    }
  }

  /** A name without any dot yields the whole name, lower-cased. */
  lemma NoDotWholeName(name: string)
    requires '.' !in name
    ensures Extension(name) == ToLower(name)
  {
    ExtensionIsTextAfterLastDot(name, 0);
  }

  /** A name ending in a dot yields the empty extension. */
  lemma TrailingDotEmpty(name: string)
    requires |name| > 0 && name[|name| - 1] == '.'
    ensures Extension(name) == ""
  {
    ExtensionIsTextAfterLastDot(name, |name|);
  }

  /** Whatever precedes the last dot, the extension is what follows it. */
  lemma ExtensionOfDotted(base: string, ext: string)
    requires '.' !in ext
    ensures Extension(base + "." + ext) == ToLower(ext)
  {
    var name := base + "." + ext;
    assert name[|base| + 1..] == ext;
    ExtensionIsTextAfterLastDot(name, |base| + 1);
  }

  /** Extensions are case-insensitive: a lower-cased name has the same extension. */
  lemma ExtensionIgnoresCase(name: string)
    ensures Extension(ToLower(name)) == Extension(name)
  {
    LastPieceIsSuffix(name);
    var k := |name| - |LastPiece(name)|;
    var lower := ToLower(name);
    ToLowerSlice(name, k);
    assert '.' !in lower[k..] by {
      forall i | k <= i < |lower| ensures lower[i] != '.' {
        assert name[k..][i - k] != '.';
      }
    }
    ExtensionIsTextAfterLastDot(name, k);
    ExtensionIsTextAfterLastDot(lower, k);
    ToLowerIdempotent(name[k..]);
  }
}
