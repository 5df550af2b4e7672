/** Adding a displacement to 64-bit words of an image. */
module Rebasing {
  import opened Machine
  import opened Bytes

  function Add64(v: nat, delta: nat): (r: nat) { (v + delta) % U64 }

  function Patch(img: seq<byte>, site: nat, delta: nat): (r: seq<byte>)
    requires site + 8 <= |img|
    ensures |r| == |img|
  {
    img[..site] + Write(Add64(Read(img, site, 8), delta), 8) + img[site + 8..]
  }

  predicate Within(sites: seq<nat>, n: nat) {
    forall i | 0 <= i < |sites| :: sites[i] + 8 <= n
  }

  /** The words at the sites, one after the other. */
  function Rebase(img: seq<byte>, sites: seq<nat>, delta: nat): (r: seq<byte>)
    requires Within(sites, |img|)
    ensures |r| == |img|
  {
    if sites == [] then img
    else Patch(Rebase(img, sites[..|sites| - 1], delta), sites[|sites| - 1], delta)
  }

  predicate Covers(site: nat, k: nat) { site <= k < site + 8 }

  predicate Touches(sites: seq<nat>, k: nat) {
    exists i :: 0 <= i < |sites| && Covers(sites[i], k)
  }

  /** No two sites overlap. */
  predicate Apart(sites: seq<nat>) {
    forall i, j | 0 <= i < j < |sites| :: sites[i] + 8 <= sites[j] || sites[j] + 8 <= sites[i]
  }

  lemma PatchWord(img: seq<byte>, site: nat, delta: nat)
    requires site + 8 <= |img|
    ensures Read(Patch(img, site, delta), site, 8) == Add64(Read(img, site, 8), delta)
  {
    Powers();
    ReadAppended(img[..site], Add64(Read(img, site, 8), delta), 8, img[site + 8..]);
  }

  lemma PatchElsewhere(img: seq<byte>, site: nat, delta: nat, at: nat, n: nat)
    requires site + 8 <= |img| && at + n <= |img| && (at + n <= site || site + 8 <= at)
    ensures Patch(img, site, delta)[at..at + n] == img[at..at + n]
    ensures Read(Patch(img, site, delta), at, n) == Read(img, at, n)
  {
    assert Patch(img, site, delta)[at..at + n] == img[at..at + n];
    ReadSame(Patch(img, site, delta), at, img, at, n);
  }

  /** Bytes no site covers stay. */
  lemma {:induction false} RebaseElsewhere(img: seq<byte>, sites: seq<nat>, delta: nat, at: nat, n: nat)
    requires Within(sites, |img|) && at + n <= |img|
    requires forall i | 0 <= i < |sites| :: at + n <= sites[i] || sites[i] + 8 <= at
    ensures Rebase(img, sites, delta)[at..at + n] == img[at..at + n]
    ensures Read(Rebase(img, sites, delta), at, n) == Read(img, at, n)
  {
    if sites != [] {
      var init := sites[..|sites| - 1];
      RebaseElsewhere(img, init, delta, at, n);
      PatchElsewhere(Rebase(img, init, delta), sites[|sites| - 1], delta, at, n);
    }
  }

  /** With sites apart, every listed word has the displacement added exactly once. */
  lemma {:induction false} RebaseWord(img: seq<byte>, sites: seq<nat>, delta: nat, i: nat)
    requires Within(sites, |img|) && Apart(sites) && i < |sites|
    ensures Read(Rebase(img, sites, delta), sites[i], 8) == Add64(Read(img, sites[i], 8), delta)
    decreases |sites|
  {
    var last := |sites| - 1;
    var init := sites[..last];
    var before := Rebase(img, init, delta);
    if i == last {
      RebaseElsewhere(img, init, delta, sites[i], 8);
      PatchWord(before, sites[i], delta);
    } else {
      RebaseWord(img, init, delta, i);
      PatchElsewhere(before, sites[last], delta, sites[i], 8);
    }
  }

  lemma SameByte(a: seq<byte>, b: seq<byte>, site: nat, k: nat)
    requires |a| == |b| && site + 8 <= |a| && Covers(site, k) && Read(a, site, 8) == Read(b, site, 8)
    ensures a[k] == b[k]
  {
    ReadInjective(a, site, b, site, 8);
    assert a[site..site + 8][k - site] == b[site..site + 8][k - site];
  }

  /** An image is determined by its words at the sites and its bytes elsewhere. */
  lemma SameImage(a: seq<byte>, b: seq<byte>, sites: seq<nat>)
    requires |a| == |b| && Within(sites, |a|)
    requires forall i | 0 <= i < |sites| :: Read(a, sites[i], 8) == Read(b, sites[i], 8)
    requires forall k | 0 <= k < |a| && !Touches(sites, k) :: a[k] == b[k]
    ensures a == b
  {
    hide Read;
    forall k | 0 <= k < |a| ensures a[k] == b[k] {
      if Touches(sites, k) {
        var i :| 0 <= i < |sites| && Covers(sites[i], k);
        SameByte(a, b, sites[i], k);
      }
    }
  }

  lemma UntouchedByte(img: seq<byte>, sites: seq<nat>, delta: nat, k: nat)
    requires Within(sites, |img|) && k < |img| && !Touches(sites, k)
    ensures Rebase(img, sites, delta)[k] == img[k]
  {
    forall i | 0 <= i < |sites| ensures k + 1 <= sites[i] || sites[i] + 8 <= k {
      assert !Covers(sites[i], k);
    }
    RebaseElsewhere(img, sites, delta, k, 1);
    assert Rebase(img, sites, delta)[k..k + 1][0] == img[k..k + 1][0];
  }

  /** Rebasing is determined by what it does to each listed word and to the rest. */
  lemma RebaseUnique(img: seq<byte>, sites: seq<nat>, delta: nat, r: seq<byte>)
    requires Within(sites, |img|) && Apart(sites) && |r| == |img|
    requires forall i | 0 <= i < |sites| :: Read(r, sites[i], 8) == Add64(Read(img, sites[i], 8), delta)
    requires forall k | 0 <= k < |img| && !Touches(sites, k) :: r[k] == img[k]
    ensures r == Rebase(img, sites, delta)
  {
    forall i | 0 <= i < |sites| ensures Read(r, sites[i], 8) == Read(Rebase(img, sites, delta), sites[i], 8) {
      RebaseWord(img, sites, delta, i);
    }
    forall k | 0 <= k < |r| && !Touches(sites, k) ensures r[k] == Rebase(img, sites, delta)[k] {
      UntouchedByte(img, sites, delta, k);
    }
    SameImage(r, Rebase(img, sites, delta), sites);
  }

  lemma ModOfSum(a: nat, b: nat)
    ensures (a % U64 + b) % U64 == (a + b) % U64
  {
    assert a == a / U64 * U64 + a % U64;
  }

  lemma AddTwice(v: nat, d: nat, e: nat)
    requires v < U64
    ensures Add64(Add64(v, d), e) == Add64(v, (d + e) % U64)
  {
    ModOfSum(v + d, e);
    ModOfSum(d + e, v);
  }

  /** Displacements compose by addition modulo 2^64. */
  lemma RebaseTwice(img: seq<byte>, sites: seq<nat>, d: nat, e: nat)
    requires Within(sites, |img|) && Apart(sites)
    ensures Rebase(Rebase(img, sites, d), sites, e) == Rebase(img, sites, (d + e) % U64)
  {
    hide Read, Rebase;
    var r := Rebase(Rebase(img, sites, d), sites, e);
    forall i | 0 <= i < |sites| ensures Read(r, sites[i], 8) == Add64(Read(img, sites[i], 8), (d + e) % U64) {
      RebaseWord(Rebase(img, sites, d), sites, e, i);
      RebaseWord(img, sites, d, i);
      Powers();
      AddTwice(Read(img, sites[i], 8), d, e);
    }
    forall k | 0 <= k < |img| && !Touches(sites, k) ensures r[k] == img[k] {
      UntouchedByte(Rebase(img, sites, d), sites, e, k);
      UntouchedByte(img, sites, d, k);
    }
    RebaseUnique(img, sites, (d + e) % U64, r);
  }

  lemma AddZero(v: nat)
    requires v < U64
    ensures Add64(v, 0) == v
  {
  }

  lemma NegationCancels(d: nat)
    requires d < U64
    ensures (d + (U64 - d) % U64) % U64 == 0
  {
    if d > 0 { assert (U64 - d) % U64 == U64 - d; }
  }

  /** Rebasing back restores every byte. */
  lemma RebaseBack(img: seq<byte>, sites: seq<nat>, d: nat)
    requires Within(sites, |img|) && Apart(sites) && d < U64
    ensures Rebase(Rebase(img, sites, d), sites, (U64 - d) % U64) == img
  {
    hide Read, Rebase, Touches;
    var e := (U64 - d) % U64;
    NegationCancels(d);
    RebaseTwice(img, sites, d, e);
    forall i | 0 <= i < |sites| ensures Read(img, sites[i], 8) == Add64(Read(img, sites[i], 8), 0) {
      Powers();
      AddZero(Read(img, sites[i], 8));
    }
    RebaseUnique(img, sites, 0, img);
  }
}
