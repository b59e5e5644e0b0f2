/** An independent, element-by-element account of cutting a list into pages of a
    fixed size. It never mentions slicing arithmetic; the lemmas connect it to the
    clamped windows the table computes. */
module Paging {
  import opened Js

  /** The first `k` elements of `s` (all of them when `s` is shorter). */
  function Take<T>(s: seq<T>, k: nat): seq<T>
    decreases k
  {
    if k == 0 || |s| == 0 then [] else [s[0]] + Take(s[1..], k - 1)
  }

  /** `s` without its first `k` elements (empty when `s` is shorter). */
  function Drop<T>(s: seq<T>, k: nat): seq<T>
    decreases k
  {
    if k == 0 || |s| == 0 then s else Drop(s[1..], k - 1)
  }

  /** Page `p` (counted from 0) of `s` cut into pages of `size` rows:
      skip `p` whole pages, then keep one. */
  function PageOf<T>(s: seq<T>, size: nat, p: nat): seq<T>
    decreases p
  {
    if p == 0 then Take(s, size) else PageOf(Drop(s, size), size, p - 1)
  }

  /** Pages 0 .. count-1 laid end to end. */
  function Pages<T>(s: seq<T>, size: nat, count: nat): seq<T>
    decreases count
  {
    if count == 0 then [] else Pages(s, size, count - 1) + PageOf(s, size, count - 1)
  }

  lemma {:induction false} TakeIsPrefix<T>(s: seq<T>, k: nat)
    ensures Take(s, k) == s[..Min(k, |s|)]
    decreases k
  {
    if k == 0 || |s| == 0 {
    } else {
      TakeIsPrefix(s[1..], k - 1);
      assert s[1..][..Min(k - 1, |s| - 1)] == s[1..Min(k, |s|)];
    }
  }

  lemma {:induction false} DropIsSuffix<T>(s: seq<T>, k: nat)
    ensures Drop(s, k) == s[Min(k, |s|)..]
    decreases k
  {
    if k == 0 || |s| == 0 {
    } else {
      DropIsSuffix(s[1..], k - 1);
      assert s[1..][Min(k - 1, |s| - 1)..] == s[Min(k, |s|)..];
    }
  }

  /** Page `p` is the window of `s` from `p*size` to `p*size + size`, both clamped to `|s|`. */
  lemma {:induction false} PageOfIsWindow<T>(s: seq<T>, size: nat, p: nat)
    ensures PageOf(s, size, p) == s[Min(p * size, |s|)..Min(p * size + size, |s|)]
    decreases p
  {
    if p == 0 {
      TakeIsPrefix(s, size);
    } else {
      var d := Drop(s, size);
      DropIsSuffix(s, size);
      PageOfIsWindow(d, size, p - 1);
      var q := (p - 1) * size;
      assert q + size == p * size by {
        assert (p - 1) * size + size == p * size;
      }
      if size <= |s| {
        assert d == s[size..];
        assert d[Min(q, |d|)..Min(q + size, |d|)]
            == s[size + Min(q, |d|)..size + Min(q + size, |d|)];
      } else {
        assert d == [];
        assert p * size >= size;
      }
    }
  }

  /** The first `count` pages together are the first `count*size` elements. */
  lemma {:induction false} PagesArePrefix<T>(s: seq<T>, size: nat, count: nat)
    ensures Pages(s, size, count) == s[..Min(count * size, |s|)]
    decreases count
  {
    if count > 0 {
      var c := count - 1;
      PagesArePrefix(s, size, c);
      PageOfIsWindow(s, size, c);
      assert c * size + size == count * size by {
        assert (count - 1) * size + size == count * size;
      }
      assert c * size <= count * size;
      assert s[..Min(c * size, |s|)] + s[Min(c * size, |s|)..Min(count * size, |s|)]
          == s[..Min(count * size, |s|)];
    }
  }

  /** Enough pages to hold every element reproduce `s` exactly, in order:
      every element is shown on some page, and none is shown twice. */
  lemma PagesCoverAll<T>(s: seq<T>, size: nat, count: nat)
    requires count * size >= |s|
    ensures Pages(s, size, count) == s
  {
    PagesArePrefix(s, size, count);
  }

  /** Element `i` sits on page `i / size`, at row `i % size` of that page. */
  lemma ElementOnItsPage<T>(s: seq<T>, size: nat, i: nat)
    requires 0 < size && i < |s|
    ensures i % size < |PageOf(s, size, i / size)|
    ensures PageOf(s, size, i / size)[i % size] == s[i]
  {
    var p := i / size;
    PageOfIsWindow(s, size, p);
    assert p * size + i % size == i;
    assert i % size < size;
  }
}
