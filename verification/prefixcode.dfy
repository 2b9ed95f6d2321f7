/**
  The Huffman trees of Compression/src/Brotli.cpp: a tree of nodes with two child pointers, grown one code word
  at a time and walked one bit at a time.
*/
module PrefixCodes {
  import opened BitStreams

  /** The bits that lead from the root to a node. */
  type Path = seq<bool>

  /** A tree by its paths: the value stored in the node at the end of each. */
  type Shape = map<Path, nat>

  datatype Entry = Entry(word: Path, value: nat)

  function Ext(p: Path, b: bool): Path { p + [b] }

  predicate IsPrefix(p: Path, q: Path) {
    |p| <= |q| && q[..|p|] == p
  }

  // --- growing a tree -------------------------------------------------------------------------------------

  function Touch(shape: Shape, p: Path): Shape {
    if p in shape then shape else shape[p := 0]
  }

  /** Nodes for the first `k` steps along `word`, where there are none yet. */
  function Reach(shape: Shape, word: Path, k: nat): Shape
    requires k <= |word|
  {
    if k == 0 then shape else Touch(Reach(shape, word, k - 1), word[..k])
  }

  function Insert(shape: Shape, word: Path, value: nat): Shape {
    Reach(shape, word, |word|)[word := value]
  }

  function ShapeOf(book: seq<Entry>): Shape {
    if book == [] then map[[] := 0]
    else Insert(ShapeOf(book[..|book| - 1]), book[|book| - 1].word, book[|book| - 1].value)
  }

  lemma {:induction false} ReachDomain(shape: Shape, word: Path, k: nat, p: Path)
    requires k <= |word|
    ensures p in Reach(shape, word, k) <==> p in shape || (1 <= |p| <= k && IsPrefix(p, word))
    ensures p in shape ==> Reach(shape, word, k)[p] == shape[p]
  {
    if k > 0 { ReachDomain(shape, word, k - 1, p); }
  }

  predicate InBook(book: seq<Entry>, p: Path) {
    exists i :: 0 <= i < |book| && IsPrefix(p, book[i].word)
  }

  /** The nodes of a tree are the prefixes of its code words. */
  lemma {:induction false} ShapeDomain(book: seq<Entry>, p: Path)
    ensures p in ShapeOf(book) <==> p == [] || InBook(book, p)
  {
    if book != [] {
      var n := |book| - 1;
      ShapeDomain(book[..n], p);
      ReachDomain(ShapeOf(book[..n]), book[n].word, |book[n].word|, p);
      if InBook(book, p) && p != [] {
        var i :| 0 <= i < |book| && IsPrefix(p, book[i].word);
        if i < n { assert IsPrefix(p, book[..n][i].word); }
      }
      if InBook(book[..n], p) {
        var i :| 0 <= i < n && IsPrefix(p, book[..n][i].word);
        assert IsPrefix(p, book[i].word);
      }
    }
  }

  ghost predicate PrefixFree(book: seq<Entry>) {
    forall i, j :: 0 <= i < |book| && 0 <= j < |book| && i != j ==> !IsPrefix(book[i].word, book[j].word)
  }

  lemma {:induction false} ShapeValue(book: seq<Entry>, i: nat)
    requires PrefixFree(book) && i < |book|
    ensures book[i].word in ShapeOf(book) && ShapeOf(book)[book[i].word] == book[i].value
  {
    var n := |book| - 1;
    if i < n {
      var init := book[..n];
      assert forall j :: 0 <= j < n ==> init[j] == book[j];
      ShapeValue(init, i);
      ReachDomain(ShapeOf(init), book[n].word, |book[n].word|, book[i].word);
      assert !IsPrefix(book[i].word, book[n].word);
    }
  }

  // --- walking a tree -------------------------------------------------------------------------------------

  /** Where a walk ends: at a leaf, at the end of the input, or at a child that is not there. */
  datatype Walked = Stop(path: Path) | Starved | Missing

  predicate Inner(shape: Shape, p: Path) {
    Ext(p, false) in shape || Ext(p, true) in shape
  }

  function Walk(shape: Shape, p: Path, bits: seq<bool>): Walked
    decreases |bits|
  {
    if !Inner(shape, p) then Stop(p)
    else if bits == [] then Starved
    else if Ext(p, bits[0]) !in shape then Missing
    else Walk(shape, Ext(p, bits[0]), bits[1..])
  }

  lemma {:induction false} WalkAlong(shape: Shape, word: Path, k: nat, rest: seq<bool>)
    requires k <= |word| && forall j :: k < j <= |word| ==> word[..j] in shape
    ensures Walk(shape, word[..k], word[k..] + rest) == Walk(shape, word, rest)
    decreases |word| - k
  {
    if k == |word| {
      assert word[..k] == word && word[k..] + rest == rest;
    } else {
      WalkAlong(shape, word, k + 1, rest);
      WalkStep(shape, word, k, rest);
    }
  }

  lemma WalkStep(shape: Shape, word: Path, k: nat, rest: seq<bool>)
    requires k < |word| && word[..k + 1] in shape
    ensures Walk(shape, word[..k], word[k..] + rest) == Walk(shape, word[..k + 1], word[k + 1..] + rest)
  {
    var bits := word[k..] + rest;
    assert Ext(word[..k], word[k]) == word[..k + 1];
    assert bits[0] == word[k] && bits[1..] == word[k + 1..] + rest;
  }

  lemma PrefixTrans(w: Path, b: bool, v: Path)
    requires IsPrefix(Ext(w, b), v)
    ensures IsPrefix(w, v) && w != v
  {
    assert Ext(w, b)[..|w|] == w;
  }

  lemma LeafWord(book: seq<Entry>, i: nat)
    requires PrefixFree(book) && i < |book|
    ensures !Inner(ShapeOf(book), book[i].word)
  {
    var w := book[i].word;
    forall b | Ext(w, b) in ShapeOf(book) ensures false {
      ShapeDomain(book, Ext(w, b));
      var j :| 0 <= j < |book| && IsPrefix(Ext(w, b), book[j].word);
      PrefixTrans(w, b, book[j].word);
    }
  }

  /** A code word followed by anything is decoded to its value, and nothing behind it is read. */
  lemma WalkFinds(book: seq<Entry>, i: nat, rest: seq<bool>)
    requires PrefixFree(book) && i < |book|
    ensures Walk(ShapeOf(book), [], book[i].word + rest) == Stop(book[i].word)
    ensures book[i].word in ShapeOf(book) && ShapeOf(book)[book[i].word] == book[i].value
  {
    var shape, w := ShapeOf(book), book[i].word;
    forall j | 0 < j <= |w| ensures w[..j] in shape {
      ShapeDomain(book, w[..j]);
      assert IsPrefix(w[..j], book[i].word);
    }
    WalkAlong(shape, w, 0, rest);
    assert w[..0] == [] && w[0..] == w;
    LeafWord(book, i);
    ShapeValue(book, i);
  }

  /** No walk can meet a missing child. */
  ghost predicate Full(shape: Shape) {
    forall p :: p in shape && Inner(shape, p) ==> Ext(p, false) in shape && Ext(p, true) in shape
  }

  lemma {:induction false} FullWalk(shape: Shape, p: Path, bits: seq<bool>)
    requires Full(shape) && p in shape
    ensures var w := Walk(shape, p, bits);
      w != Missing && (w.Stop? ==> w.path in shape && !Inner(shape, w.path))
    decreases |bits|
  {
    if Inner(shape, p) && bits != [] { FullWalk(shape, Ext(p, bits[0]), bits[1..]); }
  }

  /** A walk that stops has read exactly the path it stops at. */
  lemma {:induction false} WalkReads(shape: Shape, p: Path, bits: seq<bool>)
    requires p in shape
    ensures var w := Walk(shape, p, bits);
      w.Stop? ==>
        && w.path in shape && !Inner(shape, w.path)
        && |p| <= |w.path| <= |p| + |bits| && w.path == p + bits[..|w.path| - |p|]
    decreases |bits|
  {
    if Inner(shape, p) && bits != [] && Ext(p, bits[0]) in shape {
      var q := Ext(p, bits[0]);
      WalkReads(shape, q, bits[1..]);
      var w := Walk(shape, q, bits[1..]);
      if w.Stop? { assert bits[..|w.path| - |p|] == [bits[0]] + bits[1..][..|w.path| - |q|]; }
    } else {
      assert bits[..0] == [];
    }
  }

  lemma ProperPrefix(book: seq<Entry>, p: Path, i: nat)
    requires i < |book| && IsPrefix(p, book[i].word) && p != book[i].word
    ensures Inner(ShapeOf(book), p)
  {
    var w := book[i].word;
    var q := Ext(p, w[|p|]);
    assert q == w[..|p| + 1];
    assert IsPrefix(q, w);
    ShapeDomain(book, q);
  }

  /** A leaf is the end of a code word. */
  lemma LeafIsWord(book: seq<Entry>, p: Path) returns (i: nat)
    requires book != [] && p in ShapeOf(book) && !Inner(ShapeOf(book), p)
    ensures i < |book| && book[i].word == p
  {
    ShapeDomain(book, p);
    assert p == [] ==> IsPrefix(p, book[0].word);
    i :| 0 <= i < |book| && IsPrefix(p, book[i].word);
    if p != book[i].word { ProperPrefix(book, p, i); }
  }

  /** Every decoding with a full tree gives the value of a code word, namely of the one it has read. */
  lemma StopIsEntry(book: seq<Entry>, bits: seq<bool>) returns (i: nat)
    requires PrefixFree(book) && book != [] && Walk(ShapeOf(book), [], bits).Stop?
    ensures i < |book| && Walk(ShapeOf(book), [], bits) == Stop(book[i].word) && IsPrefix(book[i].word, bits)
    ensures book[i].word in ShapeOf(book) && ShapeOf(book)[book[i].word] == book[i].value
  {
    ShapeDomain(book, []);
    WalkReads(ShapeOf(book), [], bits);
    var p := Walk(ShapeOf(book), [], bits).path;
    i := LeafIsWord(book, p);
    ShapeValue(book, i);
  }

  // --- the nodes ------------------------------------------------------------------------------------------

  class Huffman {
    var zero: Huffman?
    var one: Huffman?
    var value: nat

    constructor (value: nat)
      ensures zero == null && one == null && this.value == value
    {
      zero, one, this.value := null, null, value;
    }

    function Child(b: bool): Huffman?
      reads this
    {
      if b then one else zero
    }

    method SetChild(b: bool, node: Huffman)
      modifies this
      ensures Child(b) == node && Child(!b) == old(Child(!b)) && value == old(value)
    {
      if b { one := node; } else { zero := node; }
    }

    /** `operator()`: one bit per inner node.  Missing children and missing input both end the program. */
    method Decode(reader: NibbleReader, ghost at: map<Path, Huffman>, ghost p: Path) returns (ok: bool, result: nat)
      requires Tree(at) && p in at && at[p] == this && reader.Valid()
      modifies reader`position
      ensures reader.Valid()
      ensures var w := Walk(ShapeAt(at), p, old(reader.Unread()));
        && (ok <==> w.Stop?)
        && (ok ==>
          && w.path in at && result == ShapeAt(at)[w.path]
          && reader.position == old(reader.position) + |w.path| - |p|)
      decreases |reader.Unread()|
    {
      ghost var bits, shape := reader.Unread(), ShapeAt(at);
      if zero == null && one == null {
        assert !Inner(shape, p);
        return true, value;
      }
      assert Inner(shape, p);
      var got, bit := reader.Read(1);
      if !got {
        return false, 0;
      }
      OneBit(bits, bit);
      var child := Child(bit == 1);
      if child == null {
        return false, 0;
      }
      ok, result := child.Decode(reader, at, Ext(p, bit == 1));
    }
  }

  lemma OneBit(bits: seq<bool>, bit: nat)
    requires bits != [] && bit == Number(bits[..1])
    ensures bit < 2 && (bit == 1 <==> bits[0])
  {
    assert bits[..1] == [bits[0]];
  }

  /** `at` names every node of a tree by its path. */
  ghost predicate Tree(at: map<Path, Huffman>)
    reads at.Values
  {
    && [] in at
    && (forall p, b :: Ext(p, b) in at ==> p in at)
    && (forall p, q :: p in at && q in at && at[p] == at[q] ==> p == q)
    && (forall p, b :: p in at ==> (Ext(p, b) in at <==> at[p].Child(b) != null))
    && (forall p, b :: p in at && Ext(p, b) in at ==> at[p].Child(b) == at[Ext(p, b)])
  }

  ghost function ShapeAt(at: map<Path, Huffman>): Shape
    reads at.Values
  {
    map p | p in at :: at[p].value
  }
}
