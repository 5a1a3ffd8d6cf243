/**
  The free lists of the heap: bin 1 is the unsorted queue, bins 2..31 hold one size each, bins 32..95
  are kept sorted, largest first (shared/malloc.c.h, "Bins", "Unsorted chunks", "Fastbins").
  `home` says in which bin each free chunk sits, so "in exactly one list" is a function.
 */
module HeapLists {
  import opened HeapSizes
  import opened HeapLayout
  import opened BinMap
  import opened Sequences

  type Home = map<int, int>

  ghost predicate Descending(s: seq<int>, sz: Chunks) {
    forall j, k :: 0 <= j < k < |s| && s[j] in sz && s[k] in sz ==> sz[s[j]] >= sz[s[k]]
  }

  lemma RemoveAtDescending(s: seq<int>, k: nat, sz: Chunks)
    requires k < |s| && Descending(s, sz)
    ensures Descending(RemoveAt(s, k), sz)
  {
  }

  lemma InsertAtDescending(s: seq<int>, k: nat, x: int, sz: Chunks)
    requires k <= |s| && Descending(s, sz) && x in sz
    requires forall j :: 0 <= j < |s| ==> s[j] in sz
    requires forall j :: 0 <= j < k ==> sz[s[j]] >= sz[x]
    requires forall j :: k <= j < |s| ==> sz[x] >= sz[s[j]]
    ensures Descending(InsertAt(s, k, x), sz)
  {
  }

  // ---------------------------------------------------------------- regular bins

  ghost predicate BinAt(bins: seq<seq<int>>, home: Home, sz: Chunks, i: int)
    requires |bins| == NBINS && 0 <= i < NBINS
  {
    && NoDup(bins[i])
    && (i >= NSMALLBINS ==> Descending(bins[i], sz))
    && (forall p {:trigger p in bins[i]} :: p in bins[i] ==> p in home && home[p] == i)
  }

  ghost predicate HomeAt(bins: seq<seq<int>>, home: Home, sz: Chunks, p: int)
    requires |bins| == NBINS && p in home
  {
    && p in sz && sz[p] >= MINSIZE && 1 <= home[p] < NBINS
    && p in bins[home[p]]
    && (home[p] == 1 || home[p] == BinIndex(sz[p]))
  }

  ghost predicate Binned(bins: seq<seq<int>>, home: Home, sz: Chunks) {
    && |bins| == NBINS
    && (forall i {:trigger BinAt(bins, home, sz, i)} :: 0 <= i < NBINS ==> BinAt(bins, home, sz, i))
    && (forall p {:trigger HomeAt(bins, home, sz, p)} :: p in home ==> HomeAt(bins, home, sz, p))
  }

  /** A clear bitmap bit means an empty bin. */
  ghost predicate MapSound(bins: seq<seq<int>>, binmap: seq<nat>) {
    && |bins| == NBINS && ValidMap(binmap)
    && forall i: nat {:trigger Marked(binmap, i)} :: 2 <= i < NBINS && !Marked(binmap, i) ==> bins[i] == []
  }

  /** The lists only look at the sizes of free chunks. */
  lemma BinnedFrame(bins: seq<seq<int>>, home: Home, sz: Chunks, sz': Chunks)
    requires Binned(bins, home, sz)
    requires forall p {:trigger p in home} :: p in home && p in sz ==> p in sz' && sz'[p] == sz[p]
    ensures Binned(bins, home, sz')
  {
    forall p | p in home ensures HomeAt(bins, home, sz', p) {
      assert HomeAt(bins, home, sz, p);
    }
    forall i | 0 <= i < NBINS ensures BinAt(bins, home, sz', i) {
      assert BinAt(bins, home, sz, i);
      forall j, k | 0 <= j < k < |bins[i]| && bins[i][j] in sz' && bins[i][k] in sz'
        ensures sz'[bins[i][j]] >= sz'[bins[i][k]] || i < NSMALLBINS
      {
        assert bins[i][j] in bins[i] && bins[i][k] in bins[i];
        assert HomeAt(bins, home, sz, bins[i][j]) && HomeAt(bins, home, sz, bins[i][k]);
      }
    }
  }

  /** unlink: p leaves its list and no other chunk moves. */
  lemma UnlinkBinned(bins: seq<seq<int>>, home: Home, sz: Chunks, p: int, k: nat)
    requires Binned(bins, home, sz) && p in home
    requires 0 <= home[p] < NBINS && k < |bins[home[p]]| && bins[home[p]][k] == p
    ensures Binned(bins[home[p] := RemoveAt(bins[home[p]], k)], home - {p}, sz)
  {
    var i := home[p];
    var bins', home' := bins[i := RemoveAt(bins[i], k)], home - {p};
    assert BinAt(bins, home, sz, i);
    RemoveAtFacts(bins[i], k);
    if i >= NSMALLBINS { RemoveAtDescending(bins[i], k, sz); }
    forall q | q in home' ensures HomeAt(bins', home', sz, q) {
      assert HomeAt(bins, home, sz, q);
    }
    forall j | 0 <= j < NBINS ensures BinAt(bins', home', sz, j) {
      assert BinAt(bins, home, sz, j);
      if j != i { assert p !in bins[j]; }
    }
  }

  /** A new free chunk joins bin i at position k. */
  lemma InsertBinned(bins: seq<seq<int>>, home: Home, sz: Chunks, p: int, i: int, k: nat)
    requires Binned(bins, home, sz) && p !in home && p in sz && sz[p] >= MINSIZE
    requires 1 <= i < NBINS && (i == 1 || i == BinIndex(sz[p]))
    requires k <= |bins[i]|
    requires i >= NSMALLBINS ==>
      && (forall j {:trigger bins[i][j]} :: 0 <= j < k && bins[i][j] in sz ==> sz[bins[i][j]] >= sz[p])
      && (forall j {:trigger bins[i][j]} :: k <= j < |bins[i]| && bins[i][j] in sz ==> sz[p] >= sz[bins[i][j]])
    ensures Binned(bins[i := InsertAt(bins[i], k, p)], home[p := i], sz)
  {
    var bins', home' := bins[i := InsertAt(bins[i], k, p)], home[p := i];
    assert BinAt(bins, home, sz, i);
    assert p !in bins[i];
    InsertAtFacts(bins[i], k, p);
    if i >= NSMALLBINS {
      forall j | 0 <= j < |bins[i]| ensures bins[i][j] in sz {
        assert bins[i][j] in bins[i] && HomeAt(bins, home, sz, bins[i][j]);
      }
      InsertAtDescending(bins[i], k, p, sz);
    }
    forall q | q in home' ensures HomeAt(bins', home', sz, q) {
      if q != p { assert HomeAt(bins, home, sz, q); }
    }
    forall j | 0 <= j < NBINS ensures BinAt(bins', home', sz, j) {
      assert BinAt(bins, home, sz, j);
    }
  }

  // ---------------------------------------------------------------- best fit

  /** p is a smallest free chunk of at least nb bytes, as a linear scan over all bins would find. */
  ghost predicate BestFit(sz: Chunks, home: Home, nb: int, p: int) {
    && p in home && p in sz && sz[p] >= nb
    && forall q {:trigger q in home} :: q in home && q in sz && sz[q] >= nb ==> sz[p] <= sz[q]
  }

  ghost predicate NoneFits(sz: Chunks, home: Home, nb: int) {
    forall q {:trigger q in home} :: q in home && q in sz ==> sz[q] < nb
  }

  lemma BestFitSameKeys(sz0: Chunks, home0: Home, home1: Home, nb: int, p: int)
    requires BestFit(sz0, home1, nb, p) && home1.Keys == home0.Keys
    ensures BestFit(sz0, home0, nb, p)
  {
    assert p in home1.Keys;
    forall q {:trigger q in home0} | q in home0 && q in sz0 && sz0[q] >= nb ensures sz0[p] <= sz0[q] {
      assert q in home0.Keys && q in home1;
    }
  }

  /** The own bin of nb holds nothing of nb bytes or more. */
  ghost predicate OwnBinTooSmall(bins: seq<seq<int>>, sz: Chunks, nb: int)
    requires |bins| == NBINS && nb >= MINSIZE
  {
    var i := BinIndex(nb);
    0 <= i < NBINS && forall q {:trigger q in bins[i]} :: q in bins[i] && q in sz ==> sz[q] < nb
  }

  lemma LastIsSmallest(bins: seq<seq<int>>, home: Home, sz: Chunks, i: int, q: int)
    requires Binned(bins, home, sz) && Aligned(sz) && 2 <= i < NBINS && q in bins[i]
    ensures var v := bins[i][|bins[i]| - 1]; v in sz && q in sz && sz[v] <= sz[q]
  {
    var v := bins[i][|bins[i]| - 1];
    assert BinAt(bins, home, sz, i) && v in bins[i];
    assert HomeAt(bins, home, sz, v) && HomeAt(bins, home, sz, q);
    if i < NSMALLBINS {
      assert AlignedAt(sz, v) && AlignedAt(sz, q);
      SmallBinHoldsOneSize(sz[v], sz[q]);
    }
  }

  /** Sizes against bins, once the unsorted queue is empty. */
  lemma FitsOnlyFrom(bins: seq<seq<int>>, home: Home, sz: Chunks, nb: int, q: int)
    requires Binned(bins, home, sz) && bins[1] == [] && nb >= MINSIZE && OwnBinTooSmall(bins, sz, nb)
    requires q in home && q in sz
    ensures sz[q] >= MINSIZE && home[q] == BinIndex(sz[q]) && 2 <= home[q] < NBINS && q in bins[home[q]]
    ensures sz[q] >= nb <==> home[q] > BinIndex(nb)
  {
    assert HomeAt(bins, home, sz, q);
    if sz[q] >= nb {
      BinIndexMonotone(nb, sz[q]);
    } else {
      BinIndexMonotone(sz[q], nb);
    }
    assert home[q] != 1;
  }

  /** The last chunk of the first non-empty later bin is a best fit. */
  lemma FirstBinIsBestFit(bins: seq<seq<int>>, home: Home, sz: Chunks, nb: int, i: int)
    requires Binned(bins, home, sz) && Aligned(sz) && bins[1] == [] && nb >= MINSIZE
    requires OwnBinTooSmall(bins, sz, nb) && BinIndex(nb) < i < NBINS && 2 <= i && bins[i] != []
    requires forall j {:trigger bins[j]} :: BinIndex(nb) < j < i ==> bins[j] == []
    ensures BestFit(sz, home, nb, bins[i][|bins[i]| - 1])
  {
    var v := bins[i][|bins[i]| - 1];
    assert BinAt(bins, home, sz, i) && v in bins[i] && HomeAt(bins, home, sz, v);
    FitsOnlyFrom(bins, home, sz, nb, v);
    forall q {:trigger q in home} | q in home && q in sz && sz[q] >= nb ensures sz[v] <= sz[q] {
      FitsOnlyFrom(bins, home, sz, nb, q);
      if home[q] == i {
        LastIsSmallest(bins, home, sz, i, q);
      } else {
        assert bins[home[q]] != [];
        LaterBinIsLarger(sz[v], sz[q]);
      }
    }
  }

  lemma NoBinLeft(bins: seq<seq<int>>, home: Home, sz: Chunks, nb: int)
    requires Binned(bins, home, sz) && bins[1] == [] && nb >= MINSIZE && OwnBinTooSmall(bins, sz, nb)
    requires forall j {:trigger bins[j]} :: BinIndex(nb) < j < NBINS ==> bins[j] == []
    ensures NoneFits(sz, home, nb)
  {
    forall q {:trigger q in home} | q in home && q in sz ensures sz[q] < nb {
      FitsOnlyFrom(bins, home, sz, nb, q);
      assert HomeAt(bins, home, sz, q);
    }
  }

  /** In its own (large) bin, the first chunk from the back that fits is a best fit. */
  lemma OwnBinBestFit(bins: seq<seq<int>>, home: Home, sz: Chunks, nb: int, k: nat)
    requires Binned(bins, home, sz) && bins[1] == [] && nb >= MIN_LARGE_SIZE
    requires 0 <= BinIndex(nb) < NBINS && k < |bins[BinIndex(nb)]|
    requires var s := bins[BinIndex(nb)];
             && s[k] in sz && sz[s[k]] >= nb
             && forall j {:trigger s[j]} :: k < j < |s| && s[j] in sz ==> sz[s[j]] < nb
    ensures BestFit(sz, home, nb, bins[BinIndex(nb)][k])
  {
    var i := BinIndex(nb);
    var s := bins[i];
    BinIndexMonotone(nb, nb);
    assert BinAt(bins, home, sz, i) && s[k] in bins[i] && HomeAt(bins, home, sz, s[k]);
    forall q {:trigger q in home} | q in home && q in sz && sz[q] >= nb ensures sz[s[k]] <= sz[q] {
      assert HomeAt(bins, home, sz, q);
      BinIndexMonotone(nb, sz[q]);
      if home[q] == i {
        var j :| 0 <= j < |s| && s[j] == q;
      } else {
        LaterBinIsLarger(sz[s[k]], sz[q]);
      }
    }
  }

  // ---------------------------------------------------------------- fastbins

  ghost predicate FastAt(fast: seq<seq<int>>, sz: Chunks, used: set<int>, i: int)
    requires |fast| == NFASTBINS && 0 <= i < NFASTBINS
  {
    && NoDup(fast[i])
    && (forall p {:trigger p in fast[i]} :: p in fast[i] ==> p in used && p in sz && FastbinIndex(sz[p]) == i)
  }

  /** Fastbin chunks keep their in-use bit, one size per list. */
  ghost predicate Fast(fast: seq<seq<int>>, sz: Chunks, used: set<int>) {
    && |fast| == NFASTBINS
    && (forall i {:trigger FastAt(fast, sz, used, i)} :: 0 <= i < NFASTBINS ==> FastAt(fast, sz, used, i))
  }

  ghost predicate FastEmpty(fast: seq<seq<int>>) {
    |fast| == NFASTBINS && forall i {:trigger fast[i]} :: 0 <= i < NFASTBINS ==> fast[i] == []
  }

  ghost predicate InFast(fast: seq<seq<int>>, p: int) {
    exists i {:trigger fast[i]} :: 0 <= i < |fast| && p in fast[i]
  }

  lemma FastFrame(fast: seq<seq<int>>, sz: Chunks, used: set<int>, sz': Chunks, used': set<int>)
    requires Fast(fast, sz, used) && used <= used'
    requires forall p {:trigger p in used} :: p in used && p in sz ==> p in sz' && sz'[p] == sz[p]
    ensures Fast(fast, sz', used')
  {
    forall i | 0 <= i < NFASTBINS ensures FastAt(fast, sz', used', i) {
      assert FastAt(fast, sz, used, i);
    }
  }

  /** Chunks in use that no fastbin holds: the blocks of the program. */
  ghost function LiveSet(used: set<int>, fast: seq<seq<int>>): set<int> {
    set p | p in used && !InFast(fast, p)
  }

  /** Taking the first chunk of a fastbin: it leaves every fastbin at once. */
  lemma FastPop(fast: seq<seq<int>>, sz: Chunks, used: set<int>, i: int)
    requires Fast(fast, sz, used) && 0 <= i < NFASTBINS && fast[i] != []
    ensures var p, f := fast[i][0], fast[i := fast[i][1..]];
            && p in used && p in sz && FastbinIndex(sz[p]) == i && p !in LiveSet(used, fast)
            && Fast(f, sz, used - {p})
            && LiveSet(used - {p}, f) == LiveSet(used, fast)
            && LiveSet(used, f) == LiveSet(used, fast) + {p}
  {
    var p, f := fast[i][0], fast[i := fast[i][1..]];
    assert FastAt(fast, sz, used, i) && p in fast[i];
    forall j | 0 <= j < NFASTBINS ensures FastAt(f, sz, used - {p}, j) && p !in f[j] {
      assert FastAt(fast, sz, used, j);
      if j == i {
        forall q {:trigger q in f[i]} | q in f[i] ensures q in fast[i] && q != p {
          var k :| 0 <= k < |f[i]| && f[i][k] == q;
          assert fast[i][k + 1] == q;
        }
      }
    }
    assert !InFast(f, p);
    forall q | q != p ensures InFast(f, q) <==> InFast(fast, q) {
      if InFast(fast, q) {
        var j :| 0 <= j < |fast| && q in fast[j];
        assert q in f[j] by {
          if j == i {
            var k :| 0 <= k < |fast[i]| && fast[i][k] == q;
            assert f[i][k - 1] == q;
          }
        }
      }
      if InFast(f, q) {
        var j :| 0 <= j < |f| && q in f[j];
        assert q in fast[j];
      }
    }
  }

  /** Parking a block in the fastbin of its size. */
  lemma FastPush(fast: seq<seq<int>>, sz: Chunks, used: set<int>, i: int, p: int)
    requires Fast(fast, sz, used) && 0 <= i < NFASTBINS
    requires p in LiveSet(used, fast) && p in sz && FastbinIndex(sz[p]) == i
    ensures var f := fast[i := [p] + fast[i]];
            Fast(f, sz, used) && LiveSet(used, f) == LiveSet(used, fast) - {p}
  {
    var f := fast[i := [p] + fast[i]];
    assert p !in fast[i] by { assert p in fast[i] ==> InFast(fast, p); }
    forall j | 0 <= j < NFASTBINS ensures FastAt(f, sz, used, j) {
      assert FastAt(fast, sz, used, j);
    }
    assert f[i][0] == p && p in f[i];
    assert InFast(f, p);
    forall q | q != p ensures InFast(f, q) <==> InFast(fast, q) {
      if InFast(fast, q) {
        var j :| 0 <= j < |fast| && q in fast[j];
        assert q in f[j];
      }
      if InFast(f, q) {
        var j :| 0 <= j < |f| && q in f[j];
        assert q in fast[j];
      }
    }
  }

  lemma EmptyFast(fast: seq<seq<int>>, sz: Chunks, used: set<int>)
    requires FastEmpty(fast)
    ensures Fast(fast, sz, used) && LiveSet(used, fast) == used
  {
    forall j | 0 <= j < NFASTBINS ensures FastAt(fast, sz, used, j) {
      assert fast[j] == [];
    }
    assert forall p :: !InFast(fast, p);
  }

  /** A chunk granted outside the fastbins becomes one more block of the program. */
  lemma LiveGrows(fast: seq<seq<int>>, sz: Chunks, used: set<int>, p: int)
    requires Fast(fast, sz, used) && p !in used
    ensures LiveSet(used + {p}, fast) == LiveSet(used, fast) + {p}
  {
    forall j {:trigger fast[j]} | 0 <= j < |fast| ensures p !in fast[j] {
      assert FastAt(fast, sz, used, j);
    }
  }
}
