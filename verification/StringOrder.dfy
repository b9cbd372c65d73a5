/** The order of strings, and sorting by it. */
module StringOrder {
  datatype Ordering = Less | Equal | Greater

  function Flip(o: Ordering): Ordering {
    match o
    case Less => Greater
    case Equal => Equal
    case Greater => Less
  }

  function Then(first: Ordering, second: Ordering): Ordering {
    if first.Equal? then second else first
  }

  function CompareNumbers(a: int, b: int): Ordering {
    if a < b then Less else if a == b then Equal else Greater
  }

  /** Lexicographic order of strings. */
  function CompareStrings(a: string, b: string): Ordering {
    if a == "" then (if b == "" then Equal else Less)
    else if b == "" then Greater
    else Then(CompareNumbers(a[0] as int, b[0] as int), CompareStrings(a[1..], b[1..]))
  }

  lemma {:induction false} StringsOrder(a: string, b: string)
    ensures CompareStrings(a, b) == Equal <==> a == b
    ensures CompareStrings(b, a) == Flip(CompareStrings(a, b))
  {
    if a != "" && b != "" {
      StringsOrder(a[1..], b[1..]);
      assert a == [a[0]] + a[1..] && b == [b[0]] + b[1..];
    }
  }

  lemma {:induction false} StringsTransitive(a: string, b: string, c: string)
    requires CompareStrings(a, b) == Less && CompareStrings(b, c) == Less
    ensures CompareStrings(a, c) == Less
  {
    if a != "" && a[0] == b[0] && b[0] == c[0] {
      StringsTransitive(a[1..], b[1..], c[1..]);
    }
  }

  /** The first difference decides; a proper beginning comes first. */
  lemma {:induction false} LessMeans(a: string, b: string)
    ensures CompareStrings(a, b) == Less <==>
      exists k: nat :: k <= |a| && k < |b| && a[..k] == b[..k] && (k == |a| || (a[k] as int) < b[k] as int)
  {
    if a == "" {
      if b != "" {
        assert a[..0] == b[..0];
      }
    } else if b != "" {
      LessMeans(a[1..], b[1..]);
      if CompareStrings(a, b) == Less {
        if a[0] == b[0] {
          var k: nat :| k <= |a[1..]| && k < |b[1..]| && a[1..][..k] == b[1..][..k]
            && (k == |a[1..]| || (a[1..][k] as int) < b[1..][k] as int);
          assert a[..k + 1] == [a[0]] + a[1..][..k] && b[..k + 1] == [b[0]] + b[1..][..k];
        } else {
          assert a[..0] == b[..0];
        }
      }
      if k: nat :| k <= |a| && k < |b| && a[..k] == b[..k] && (k == |a| || (a[k] as int) < b[k] as int) {
        if k > 0 {
          assert a[0] == a[..k][0] == b[..k][0] == b[0];
          assert a[1..][..k - 1] == a[..k][1..] == b[..k][1..] == b[1..][..k - 1];
        }
      }
    }
  }

  ghost predicate Increasing(ids: seq<string>) {
    forall i, j | 0 <= i < j < |ids| :: CompareStrings(ids[i], ids[j]) == Less
  }

  function Insert(id: string, ids: seq<string>): seq<string> {
    if ids == [] || CompareStrings(id, ids[0]) == Less then [id] + ids else [ids[0]] + Insert(id, ids[1..])
  }

  function Sort(ids: seq<string>): seq<string> {
    if ids == [] then [] else Insert(ids[|ids| - 1], Sort(ids[..|ids| - 1]))
  }

  lemma {:induction false} InsertKeeps(id: string, ids: seq<string>)
    requires Increasing(ids) && id !in ids
    ensures Increasing(Insert(id, ids))
    ensures forall x :: x in Insert(id, ids) <==> x == id || x in ids
  {
    hide CompareStrings;
    if ids != [] {
      var rest := ids[1..];
      assert ids == [ids[0]] + rest;
      StringsOrder(id, ids[0]);
      if CompareStrings(id, ids[0]) == Less {
        forall j | 0 <= j < |ids| ensures CompareStrings(id, ids[j]) == Less {
          if j > 0 {
            StringsTransitive(id, ids[0], ids[j]);
          }
        }
      } else {
        InsertKeeps(id, rest);
        var more := Insert(id, rest);
        forall j | 0 <= j < |more| ensures CompareStrings(ids[0], more[j]) == Less {
          assert more[j] in more;
        }
      }
    }
  }

  /** Distinct strings are put into increasing order, and none is lost. */
  lemma {:induction false} SortSorts(ids: seq<string>)
    requires forall i, j | 0 <= i < j < |ids| :: ids[i] != ids[j]
    ensures Increasing(Sort(ids))
    ensures forall x :: x in Sort(ids) <==> x in ids
  {
    if ids != [] {
      var n := |ids| - 1;
      assert ids == ids[..n] + [ids[n]];
      SortSorts(ids[..n]);
      InsertKeeps(ids[n], Sort(ids[..n]));
    }
  }
}
