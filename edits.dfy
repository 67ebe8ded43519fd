/**
 * The save handler's collection of edit rows into the `tags` object:
 * each row's key is trimmed, a row whose trimmed key is empty is skipped,
 * and `tags[k] = v` lets a later row overwrite an earlier one. Values are not trimmed.
 */
module Edits {
  import opened Strings

  /** One `.pair` row of the edit list: the text of its key input and of its value input. */
  datatype EditRow = EditRow(key: string, value: string)

  /** The tags object after the forEach has processed the first n rows, in order. */
  function CollectedPrefix(rows: seq<EditRow>, n: nat): map<string, string>
    requires n <= |rows|
  {
    if n == 0 then map[]
    else
      var prev := CollectedPrefix(rows, n - 1);
      var k := Trim(rows[n - 1].key);
      if k != "" then prev[k := rows[n - 1].value] else prev
  }

  /** The tags object once every row has been processed. */
  function Collected(rows: seq<EditRow>): map<string, string> {
    CollectedPrefix(rows, |rows|)
  }

  /** The forEach loop of the save handler. */
  method CollectTags(rows: seq<EditRow>) returns (tags: map<string, string>)
    ensures tags == Collected(rows)
  {
    tags := map[];
    var i := 0;
    while i < |rows|
      invariant 0 <= i <= |rows|
      invariant tags == CollectedPrefix(rows, i)
    {
      var k := Trim(rows[i].key);
      if k != "" {
        tags := tags[k := rows[i].value];
      }
      i := i + 1;
    }
  }

  /** Every collected key is non-empty and has no trimmable character at either end. */
  lemma {:induction false} KeysHaveTrimmedEnds(rows: seq<EditRow>, n: nat)
    requires n <= |rows|
    ensures forall k :: k in CollectedPrefix(rows, n) ==> k != "" && IsTrimmed(k)
  {
    if n > 0 {
      KeysHaveTrimmedEnds(rows, n - 1);
    }
  }

  /** Every collected key is non-empty and equal to its own trimmed form. */
  lemma KeysTrimmedNonEmpty(rows: seq<EditRow>)
    ensures forall k :: k in Collected(rows) ==> k != "" && Trim(k) == k
  {
    KeysHaveTrimmedEnds(rows, |rows|);
    forall k | k in Collected(rows) ensures Trim(k) == k {
      TrimFixedIff(k);
    }
  }

  /** Within the first n rows, a key is collected exactly when one of those rows carries it. */
  lemma {:induction false} KeyPresentInPrefix(rows: seq<EditRow>, n: nat, k: string)
    requires n <= |rows|
    ensures k in CollectedPrefix(rows, n) <==>
      k != "" && exists i :: 0 <= i < n && Trim(rows[i].key) == k
  {
    if n > 0 {
      KeyPresentInPrefix(rows, n - 1, k);
    }
  }

  /** A key is collected exactly when some row's trimmed key is that (non-empty) key. */
  lemma KeyPresentIff(rows: seq<EditRow>, k: string)
    ensures k in Collected(rows) <==>
      k != "" && exists i :: 0 <= i < |rows| && Trim(rows[i].key) == k
  {
    KeyPresentInPrefix(rows, |rows|, k);
  }

  /** LastRowWins for the first n rows. */
  lemma {:induction false} LastRowWinsInPrefix(rows: seq<EditRow>, n: nat, i: nat)
    requires i < n <= |rows| && Trim(rows[i].key) != ""
    requires forall j :: i < j < n ==> Trim(rows[j].key) != Trim(rows[i].key)
    ensures Trim(rows[i].key) in CollectedPrefix(rows, n)
    ensures CollectedPrefix(rows, n)[Trim(rows[i].key)] == rows[i].value
  {
    if i < n - 1 {
      LastRowWinsInPrefix(rows, n - 1, i);
    }
  }

  /**
   * The value kept for a key is the untrimmed value of the last row carrying that key:
   * a later row with the same trimmed key wins over an earlier one.
   */
  lemma LastRowWins(rows: seq<EditRow>, i: nat)
    requires i < |rows| && Trim(rows[i].key) != ""
    requires forall j :: i < j < |rows| ==> Trim(rows[j].key) != Trim(rows[i].key)
    ensures Trim(rows[i].key) in Collected(rows)
    ensures Collected(rows)[Trim(rows[i].key)] == rows[i].value
  {
    LastRowWinsInPrefix(rows, |rows|, i);
  }

  /** The tags collected from the first n rows depend on those rows only. */
  lemma {:induction false} CollectedSamePrefix(a: seq<EditRow>, b: seq<EditRow>, n: nat)
    requires n <= |a| && n <= |b| && a[..n] == b[..n]
    ensures CollectedPrefix(a, n) == CollectedPrefix(b, n)
  {
    if n > 0 {
      assert a[n - 1] == a[..n][n - 1] == b[..n][n - 1] == b[n - 1];
      assert a[..n - 1] == a[..n][..n - 1] == b[..n][..n - 1] == b[..n - 1];
      CollectedSamePrefix(a, b, n - 1);
    }
  }

  /** BlankRowIgnored, for the rows up to the n-th row after the blank one. */
  lemma {:induction false} BlankRowIgnoredUpTo(before: seq<EditRow>, row: EditRow, after: seq<EditRow>, n: nat)
    requires Trim(row.key) == "" && n <= |after|
    ensures CollectedPrefix(before + [row] + after, |before| + 1 + n)
         == CollectedPrefix(before + after, |before| + n)
  {
    var long, short := before + [row] + after, before + after;
    if n == 0 {
      assert long[..|before|] == short[..|before|];
      CollectedSamePrefix(long, short, |before|);
      assert long[|before|] == row;
    } else {
      BlankRowIgnoredUpTo(before, row, after, n - 1);
      assert long[|before| + n] == after[n - 1] == short[|before| + n - 1];
    }
  }

  /** A row whose trimmed key is empty adds nothing, wherever it stands. */
  lemma BlankRowIgnored(before: seq<EditRow>, row: EditRow, after: seq<EditRow>)
    requires Trim(row.key) == ""
    ensures Collected(before + [row] + after) == Collected(before + after)
  {
    BlankRowIgnoredUpTo(before, row, after, |after|);
  }
}
