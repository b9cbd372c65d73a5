/** Bytes, optional values and the few sequence operations every component shares. */
module Common {

  newtype byte = n: int | 0 <= n < 256

  type Bytes = seq<byte>

  datatype Option<+T> = None | Some(value: T)

  const U32_MAX: nat := 0xFFFF_FFFF
  const U64_MAX: nat := 0xFFFF_FFFF_FFFF_FFFF

  function Min(a: int, b: int): int {
    if a <= b then a else b
  }

  /** The Unicode White_Space property. */
  predicate Whitespace(c: char) {
    var code := c as int;
    || 0x9 <= code <= 0xD || code == 0x20 || code == 0x85 || code == 0xA0 || code == 0x1680
    || 0x2000 <= code <= 0x200A || code == 0x2028 || code == 0x2029 || code == 0x202F || code == 0x205F
    || code == 0x3000
  }

  /** Its 25 code points. */
  lemma WhitespaceMeans(c: char)
    ensures Whitespace(c) <==> c as int in {
      9, 10, 11, 12, 13, 32, 133, 160, 5760, 8192, 8193, 8194, 8195, 8196, 8197, 8198, 8199, 8200, 8201, 8202,
      8232, 8233, 8239, 8287, 12288}
  {
  }

  /** The pieces of a stream, joined. */
  function Flatten<T>(pieces: seq<seq<T>>): seq<T> {
    if pieces == [] then [] else Flatten(pieces[..|pieces| - 1]) + pieces[|pieces| - 1]
  }

  lemma FlattenSnoc<T>(pieces: seq<seq<T>>, piece: seq<T>)
    ensures Flatten(pieces + [piece]) == Flatten(pieces) + piece
  {
    assert (pieces + [piece])[..|pieces|] == pieces;
  }

  lemma {:induction false} FlattenConcat<T>(left: seq<seq<T>>, right: seq<seq<T>>)
    ensures Flatten(left + right) == Flatten(left) + Flatten(right)
    decreases |right|
  {
    if right == [] {
      assert left + right == left;
    } else {
      var init, last := right[..|right| - 1], right[|right| - 1];
      FlattenConcat(left, init);
      FlattenSnoc(left + init, last);
      assert left + right == (left + init) + [last];
      PlusAssociative(Flatten(left), Flatten(init), last);
    }
  }

  lemma FlattenCons<T>(piece: seq<T>, pieces: seq<seq<T>>)
    ensures Flatten([piece] + pieces) == piece + Flatten(pieces)
  {
    FlattenConcat([piece], pieces);
    assert [piece][..0] == [] && Flatten([piece]) == [] + piece;
  }

  lemma DropDrop<T>(whole: seq<T>, i: nat, j: nat)
    requires i + j <= |whole|
    ensures whole[i..][j..] == whole[i + j..]
  {
  }

  lemma TakeDrop<T>(whole: seq<T>, n: nat, i: nat)
    requires n <= i <= |whole|
    ensures whole[..i][n..] == whole[n..][..i - n]
    ensures i > 0 ==> whole[..i][0] == whole[0]
  {
  }

  /** What a stream and a beginning of it hold after `at`, up to the end of the beginning. */
  lemma PrefixSlice<T>(start: seq<T>, whole: seq<T>, at: nat)
    requires start <= whole && at <= |start|
    ensures whole[at..|start|] == start[at..]
  {
  }

  lemma SliceSlice<T>(whole: seq<T>, lo: nat, hi: nat, i: nat, j: nat)
    requires lo <= hi <= |whole| && i <= j <= hi - lo
    ensures whole[lo..hi][i..j] == whole[lo + i..lo + j]
  {
    var window := whole[lo..hi];
    assert forall k | i <= k < j :: window[k] == whole[lo + k];
  }

  lemma PlusAssociative<T>(a: seq<T>, b: seq<T>, c: seq<T>)
    ensures a + (b + c) == (a + b) + c
  {
  }
}
