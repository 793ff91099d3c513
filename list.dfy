/** The generic position-indexed list of listop.c.  A node list is modelled by
    the sequence of payloads it holds: `head == NULL` is the empty sequence and
    `num_nodes` is its length.  Payloads are values, so the copy that
    `add_nth_node` makes of its argument is implicit. */
module DoublyLinkedList {

  datatype Option<T> = None | Some(value: T)

  /** The position an insertion lands on: positions past the end append. */
  function ClampInsert(len: nat, n: nat): (k: nat)
    ensures k <= len
    ensures n <= len ==> k == n
    ensures n > len ==> k == len
  {
    if n > len then len else n
  }

  /** The position a removal takes: positions past the last node take the last one. */
  function ClampRemove(len: nat, n: nat): (k: nat)
    requires len > 0
    ensures k < len
    ensures n < len ==> k == n
    ensures n >= len ==> k == len - 1
  {
    if n > len - 1 then len - 1 else n
  }

  /** The list after inserting `x` at position `n` (clamped to the length). */
  function InsertAt<T>(s: seq<T>, n: nat, x: T): (r: seq<T>)
    ensures |r| == |s| + 1
    ensures r[ClampInsert(|s|, n)] == x
    ensures forall i :: 0 <= i < ClampInsert(|s|, n) ==> r[i] == s[i]
    ensures forall i :: ClampInsert(|s|, n) < i < |r| ==> r[i] == s[i - 1]
  {
    var k: nat := ClampInsert(|s|, n);
    s[..k] + [x] + s[k..]
  }

  /** The list after removing the node at position `n` (clamped to the last one). */
  function RemoveAt<T>(s: seq<T>, n: nat): (r: seq<T>)
    requires |s| > 0
    ensures |r| == |s| - 1
    ensures forall i :: 0 <= i < ClampRemove(|s|, n) ==> r[i] == s[i]
    ensures forall i :: ClampRemove(|s|, n) <= i < |r| ==> r[i] == s[i + 1]
  {
    var k: nat := ClampRemove(|s|, n);
    s[..k] + s[k + 1..]
  }

  /** Removing at the position just inserted at gives back the inserted value
      and the original list. */
  lemma InsertThenRemove<T>(s: seq<T>, n: nat, x: T)
    requires n <= |s|
    ensures InsertAt(s, n, x)[n] == x
    ensures RemoveAt(InsertAt(s, n, x), n) == s
  {
    var r := InsertAt(s, n, x);
    var t := RemoveAt(r, n);
    assert |t| == |s|;
    forall i | 0 <= i < |s| ensures t[i] == s[i] {
      if i >= n {
        assert t[i] == r[i + 1];
      }
    }
  }

  /** Inserting at any position past the end appends, which is what vma.c
      relies on when it passes `num_nodes + 1`. */
  lemma InsertPastEndAppends<T>(s: seq<T>, n: nat, x: T)
    requires n >= |s|
    ensures InsertAt(s, n, x) == s + [x]
  {
    var r := InsertAt(s, n, x);
    assert ClampInsert(|s|, n) == |s|;
    forall i | 0 <= i < |r| ensures r[i] == (s + [x])[i] {
    }
  }

  /** A non-empty prefix is the shorter prefix and its last element. */
  lemma TakeLast<T>(s: seq<T>, n: nat)
    requires 0 < n <= |s|
    ensures s[..n] == s[..n - 1] + [s[n - 1]]
  {
  }

  /** A non-empty suffix is its first element and the shorter suffix. */
  lemma DropFirst<T>(s: seq<T>, n: nat)
    requires n < |s|
    ensures s[n..] == [s[n]] + s[n + 1..]
  {
  }

  lemma AppendEmpty<T>(s: seq<T>)
    ensures s + [] == s && [] + s == s
  {
  }

  /** Concatenation regrouped around a middle element. */
  lemma Regroup<T>(x: seq<T>, a: seq<T>, m: T, b: seq<T>, y: seq<T>)
    ensures x + (a + [m] + b) + y == (x + a) + [m] + (b + y)
  {
  }

  /** A slice taken one element further is the slice with that element
      appended. */
  lemma SliceGrow<T>(s: seq<T>, i: nat, j: nat, p: seq<T>, x: T)
    requires i <= j < |s| && p == s[i..j] && x == s[j]
    ensures p + [x] == s[i..j + 1]
  {
  }

  /** Slices between equal bounds are equal. */
  lemma SameSlice<T>(s: seq<T>, i: nat, j: nat, i': nat, j': nat)
    requires i <= j <= |s| && i == i' && j == j'
    ensures s[i..j] == s[i'..j']
  {
  }

  /** The two halves of a concatenation are its operands. */
  lemma ConcatParts<T>(x: seq<T>, y: seq<T>)
    ensures (x + y)[..|x|] == x && (x + y)[|x|..] == y
  {
  }

  /** A list is the part before position `i`, the element there and the part after. */
  lemma SpliceAround<T>(s: seq<T>, i: nat)
    requires i < |s|
    ensures s == s[..i] + [s[i]] + s[i + 1..]
  {
  }

  /** Overwriting `d` into `b ++ f` from offset `off`, as a first part that
      fits in `b` and a rest that spills into `f`. */
  lemma SpillSplice<T>(b: seq<T>, f: seq<T>, off: nat, d: seq<T>, k: nat)
    requires off + k <= |b| && k <= |d| && |d| - k <= |f|
    requires k == |d| || off + k == |b|
    ensures b[..off] + d[..k] + b[off + k..] + (f[..0] + d[k..] + f[|d| - k..])
      == (b + f)[..off] + d + (b + f)[off + |d|..]
  {
    var lhs := b[..off] + d[..k] + b[off + k..] + (f[..0] + d[k..] + f[|d| - k..]);
    var rhs := (b + f)[..off] + d + (b + f)[off + |d|..];
    assert |lhs| == |rhs|;
    forall i | 0 <= i < |lhs| ensures lhs[i] == rhs[i] {
      if i < off {
      } else if i < off + |d| {
        assert rhs[i] == d[i - off];
      } else {
        assert rhs[i] == (b + f)[i];
      }
    }
  }

  /** Overwriting inside the second part of a concatenation. */
  lemma PrefixSplice<T>(p: seq<T>, s: seq<T>, off: nat, d: seq<T>)
    requires off + |d| <= |s|
    ensures p + (s[..off] + d + s[off + |d|..])
      == (p + s)[..|p| + off] + d + (p + s)[|p| + off + |d|..]
  {
    var lhs := p + (s[..off] + d + s[off + |d|..]);
    var rhs := (p + s)[..|p| + off] + d + (p + s)[|p| + off + |d|..];
    assert |lhs| == |rhs|;
    forall i | 0 <= i < |lhs| ensures lhs[i] == rhs[i] {
      if i < |p| {
      } else if i < |p| + off {
      } else if i < |p| + off + |d| {
        assert rhs[i] == d[i - |p| - off];
      } else {
        assert rhs[i] == (p + s)[i];
      }
    }
  }

  /** The middle part of a three-part concatenation, cut back out. */
  lemma SliceMiddle<T>(x: seq<T>, d: seq<T>, y: seq<T>)
    ensures (x + d + y)[|x|..|x| + |d|] == d
  {
    var s := x + d + y;
    assert forall i :: 0 <= i < |d| ==> s[|x|..|x| + |d|][i] == d[i];
  }

  /** One element of a list with a stretch overwritten from `off` on. */
  lemma SpliceAt<T>(s: seq<T>, off: nat, d: seq<T>, y: nat)
    requires off + |d| <= |s| && y < |s|
    ensures y < |s[..off] + d + s[off + |d|..]|
    ensures (s[..off] + d + s[off + |d|..])[y] == if off <= y < off + |d| then d[y - off] else s[y]
  {
  }

  /** A `list_t`: the payloads of its nodes in order and the payload size it
      was created with. */
  class DList<T> {
    var items: seq<T>
    var infoSize: nat

    /** `dll_create`: an empty list (`head == NULL`, `num_nodes == 0`). */
    constructor (infoSize: nat)
      ensures items == [] && this.infoSize == infoSize
    {
      items := [];
      this.infoSize := infoSize;
    }

    /** `num_nodes`. */
    function NumNodes(): (n: nat)
      reads this
      ensures n == |items|
    {
      |items|
    }
  }

  /** `add_nth_node`: nothing happens on a NULL list; otherwise the position is
      clamped to the length, the walk stops there and a copy of `x` is linked in. */
  method AddNthNode<T>(l: DList?<T>, n: nat, x: T)
    modifies l
    ensures l != null ==> l.items == InsertAt(old(l.items), n, x)
    ensures l != null ==> l.infoSize == old(l.infoSize)
  {
    if l == null {
      return;
    }
    var s := l.items;
    var k: nat := ClampInsert(|s|, n);
    // `prev` is the last node of `before`, `act` the first node of `after`
    var before: seq<T> := [];
    var after := s;
    while k > 0
      invariant k + |before| == ClampInsert(|s|, n) <= |s|
      invariant before == s[..|before|] && after == s[|before|..]
    {
      before := before + [after[0]];
      after := after[1..];
      k := k - 1;
    }
    l.items := before + [x] + after;
  }

  /** `remove_nth_node`: NULL for a NULL or empty list; otherwise the position is
      clamped to the last node, which is unlinked and handed back. */
  method RemoveNthNode<T>(l: DList?<T>, n: nat) returns (removed: Option<T>)
    modifies l
    ensures l == null ==> removed == None
    ensures l != null && old(l.items) == [] ==> removed == None && l.items == []
    ensures l != null && old(l.items) != [] ==>
      && removed == Some(old(l.items)[ClampRemove(|old(l.items)|, n)])
      && l.items == RemoveAt(old(l.items), n)
    ensures l != null ==> l.infoSize == old(l.infoSize)
  {
    if l == null || l.items == [] {
      return None;
    }
    var s := l.items;
    var k: nat := ClampRemove(|s|, n);
    var before: seq<T> := [];
    var after := s;
    while k > 0
      invariant k + |before| == ClampRemove(|s|, n) < |s|
      invariant before == s[..|before|] && after == s[|before|..]
    {
      before := before + [after[0]];
      after := after[1..];
      k := k - 1;
    }
    removed := Some(after[0]);
    l.items := before + after[1..];
  }
}
