/** The table of submitted records and its insert-or-replace on the key
    (name, date). */
module Table {
  import opened Calendar
  import opened Scoring

  /** The names the page lets a user pick. */
  const Roster: seq<string> := ["Theju", "Udaya", "Teju", "Tushara", "Kavya"]

  /** One row of the table: one user's report for one date. */
  datatype Record = Record(
    name: string,
    date: CalendarDate,
    takeBreak: Answer,
    diet: Answer,
    workout: Answer,
    social: Answer,
    dietPenalty: int,
    score: int)

  type Key = (string, CalendarDate)

  function KeyOf(r: Record): Key {
    (r.name, r.date)
  }

  /** The mistake count a record's penalty stands for (1 where none was asked). */
  function MistakesOf(r: Record): MistakeCount {
    if 1 <= r.dietPenalty <= 10 then r.dietPenalty else 1
  }

  /** A row as the page builds it: the break only on a day without a
      workout, and penalty and score those of the scoring rule. (On a day
      that is not a break, a penalty outside the number input's range 1 to
      10 cannot satisfy the rule: `MistakesOf` then reads it as 1, which the
      rule returns unchanged.) */
  predicate Consistent(r: Record) {
    && (r.takeBreak == Yes ==> r.workout == No)
    && DayResult(r.dietPenalty, r.score) == Rule(r.takeBreak, r.diet, r.workout, r.social, MistakesOf(r))
  }

  predicate AllConsistent(rows: seq<Record>) {
    forall x :: x in rows ==> Consistent(x)
  }

  /** No two rows share a key. */
  predicate KeysUnique(rows: seq<Record>) {
    forall i, j :: 0 <= i < j < |rows| ==> KeyOf(rows[i]) != KeyOf(rows[j])
  }

  /** The number of rows with key `k`. */
  function CountKey(rows: seq<Record>, k: Key): (n: nat)
    ensures n == 0 <==> forall x :: x in rows ==> KeyOf(x) != k
    ensures n <= |rows|
  {
    if rows == [] then 0
    else (if KeyOf(rows[0]) == k then 1 else 0) + CountKey(rows[1..], k)
  }

  /** The rows whose key is not `k`, in their order (the boolean-mask filter). */
  function WithoutKey(rows: seq<Record>, k: Key): (kept: seq<Record>)
    ensures forall x :: x in kept <==> x in rows && KeyOf(x) != k
    ensures forall x :: x in rows && KeyOf(x) != k ==> multiset(kept)[x] == multiset(rows)[x]
    ensures |kept| == |rows| - CountKey(rows, k)
  {
    if rows == [] then []
    else
      assert rows == [rows[0]] + rows[1..];
      (if KeyOf(rows[0]) == k then [] else [rows[0]]) + WithoutKey(rows[1..], k)
  }

  /** Submitting `r`: drop the rows with its key, then append it. The result
      holds `r` and every row with another key as often as before, and no
      other row. */
  function Upserted(rows: seq<Record>, r: Record): (updated: seq<Record>)
    ensures forall x :: x in updated <==> x == r || (x in rows && KeyOf(x) != KeyOf(r))
    ensures forall x :: x in rows && KeyOf(x) != KeyOf(r) ==> multiset(updated)[x] == multiset(rows)[x]
    ensures multiset(updated)[r] == 1
    ensures |updated| > 0 && updated[|updated| - 1] == r
  {
    WithoutKey(rows, KeyOf(r)) + [r]
  }

  lemma {:induction false} CountKeyAppend(a: seq<Record>, b: seq<Record>, k: Key)
    ensures CountKey(a + b, k) == CountKey(a, k) + CountKey(b, k)
  {
    if a == [] {
      assert a + b == b;
    } else {
      assert (a + b)[1..] == a[1..] + b;
      CountKeyAppend(a[1..], b, k);
    }
  }

  lemma {:induction false} WithoutKeyAppend(a: seq<Record>, b: seq<Record>, k: Key)
    ensures WithoutKey(a + b, k) == WithoutKey(a, k) + WithoutKey(b, k)
  {
    if a == [] {
      assert a + b == b;
    } else {
      assert (a + b)[1..] == a[1..] + b;
      WithoutKeyAppend(a[1..], b, k);
    }
  }

  /** Filtering out a key that no row has changes nothing. */
  lemma {:induction false} WithoutAbsentKey(rows: seq<Record>, k: Key)
    requires forall x :: x in rows ==> KeyOf(x) != k
    ensures WithoutKey(rows, k) == rows
  {
    if rows != [] {
      assert rows[0] in rows;
      WithoutAbsentKey(rows[1..], k);
    }
  }

  /** A row whose key no later row has can head a table with unique keys. */
  lemma KeysUniqueCons(head: Record, tail: seq<Record>)
    requires KeysUnique(tail)
    requires forall x :: x in tail ==> KeyOf(x) != KeyOf(head)
    ensures KeysUnique([head] + tail)
  {
    forall i, j | 0 <= i < j < |[head] + tail|
      ensures KeyOf(([head] + tail)[i]) != KeyOf(([head] + tail)[j])
    {
      if i == 0 {
        assert ([head] + tail)[j] == tail[j - 1];
        assert tail[j - 1] in tail;
      } else {
        assert ([head] + tail)[i] == tail[i - 1];
      }
    }
  }

  /** In a table with unique keys, the first row's key occurs nowhere else. */
  lemma HeadKeyUnique(rows: seq<Record>)
    requires rows != [] && KeysUnique(rows)
    ensures KeysUnique(rows[1..])
    ensures forall x :: x in rows[1..] ==> KeyOf(x) != KeyOf(rows[0])
  {
    forall x | x in rows[1..] ensures KeyOf(x) != KeyOf(rows[0]) {
      var j :| 0 <= j < |rows[1..]| && rows[1..][j] == x;
      assert rows[j + 1] == x;
    }
  }

  /** Filtering keeps keys apart. */
  lemma {:induction false} WithoutKeyKeepsKeysUnique(rows: seq<Record>, k: Key)
    requires KeysUnique(rows)
    ensures KeysUnique(WithoutKey(rows, k))
  {
    if rows != [] {
      HeadKeyUnique(rows);
      WithoutKeyKeepsKeysUnique(rows[1..], k);
      if KeyOf(rows[0]) != k {
        KeysUniqueCons(rows[0], WithoutKey(rows[1..], k));
      }
    }
  }

  /** After a submit exactly one row has the submitted key, and it is the
      submitted row. */
  lemma UpsertLeavesOneRowForKey(rows: seq<Record>, r: Record)
    ensures CountKey(Upserted(rows, r), KeyOf(r)) == 1
    ensures forall x :: x in Upserted(rows, r) && KeyOf(x) == KeyOf(r) ==> x == r
    ensures Upserted(rows, r)[|Upserted(rows, r)| - 1] == r
  {
    CountKeyAppend(WithoutKey(rows, KeyOf(r)), [r], KeyOf(r));
  }

  /** A submit keeps every row with another key, in order, and adds at most
      one row. */
  lemma UpsertKeepsOtherRows(rows: seq<Record>, r: Record)
    ensures WithoutKey(Upserted(rows, r), KeyOf(r)) == WithoutKey(rows, KeyOf(r))
    ensures forall x :: x in rows && KeyOf(x) != KeyOf(r) ==> x in Upserted(rows, r)
    ensures |Upserted(rows, r)| == |rows| - CountKey(rows, KeyOf(r)) + 1
    ensures |Upserted(rows, r)| <= |rows| + 1
  {
    var k := KeyOf(r);
    WithoutKeyAppend(WithoutKey(rows, k), [r], k);
    WithoutAbsentKey(WithoutKey(rows, k), k);
    assert WithoutKey([r], k) == [];
  }

  /** The latest submission for a key replaces the earlier one. */
  lemma LatestSubmissionWins(rows: seq<Record>, first: Record, second: Record)
    requires KeyOf(first) == KeyOf(second)
    ensures Upserted(Upserted(rows, first), second) == Upserted(rows, second)
  {
    UpsertKeepsOtherRows(rows, first);
  }

  /** Submitting the same row twice is submitting it once. */
  lemma UpsertIdempotent(rows: seq<Record>, r: Record)
    ensures Upserted(Upserted(rows, r), r) == Upserted(rows, r)
  {
    LatestSubmissionWins(rows, r, r);
  }

  /** A submit keeps the table free of duplicate keys. */
  lemma UpsertKeepsKeysUnique(rows: seq<Record>, r: Record)
    requires KeysUnique(rows)
    ensures KeysUnique(Upserted(rows, r))
  {
    WithoutKeyKeepsKeysUnique(rows, KeyOf(r));
    var kept := WithoutKey(rows, KeyOf(r));
    var t := kept + [r];
    forall i, j | 0 <= i < j < |t| ensures KeyOf(t[i]) != KeyOf(t[j]) {
      if j == |kept| {
        assert t[i] in kept;
      } else {
        assert t[i] == kept[i] && t[j] == kept[j];
      }
    }
  }

  /** A submit of a well-formed row keeps every row well-formed. */
  lemma UpsertKeepsConsistent(rows: seq<Record>, r: Record)
    requires AllConsistent(rows) && Consistent(r)
    ensures AllConsistent(Upserted(rows, r))
  {
  }

  /** The table of scores as the page holds it between loading and saving. */
  class ScoreTable {
    var rows: seq<Record>

    /** The table as loaded. */
    constructor (loaded: seq<Record>)
      ensures rows == loaded
    {
      rows := loaded;
    }

    /** Insert-or-replace on (name, date): first the mask filter, then the
        concatenation of the new row. */
    method Upsert(r: Record)
      modifies this
      ensures rows == Upserted(old(rows), r)
      ensures CountKey(rows, KeyOf(r)) == 1 && rows[|rows| - 1] == r
      ensures WithoutKey(rows, KeyOf(r)) == WithoutKey(old(rows), KeyOf(r))
      ensures |rows| <= |old(rows)| + 1
      ensures KeysUnique(old(rows)) ==> KeysUnique(rows)
      ensures AllConsistent(old(rows)) && Consistent(r) ==> AllConsistent(rows)
    {
      ghost var before := rows;
      rows := WithoutKey(rows, KeyOf(r));
      rows := rows + [r];
      UpsertLeavesOneRowForKey(before, r);
      UpsertKeepsOtherRows(before, r);
      if KeysUnique(before) {
        UpsertKeepsKeysUnique(before, r);
      }
    }
  }
}
