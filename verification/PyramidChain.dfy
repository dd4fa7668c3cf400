// How the pyramid is chained, seen from outside: which kernels a level has gone
// through, and that every level of a mirrored picture is the mirrored level.
module PyramidChain {
  import opened Words
  import opened Filter
  import opened FilterSymmetry
  import opened Pyramid

  ghost predicate Identity(kernel: Kernel) { exists c: nat :: MiddleOnly(kernel, c) && kernel[c] == 0x1_0000 }

  lemma IdentityKeeps(f: Picture, kernel: Kernel, width: nat, height: nat)
    requires Identity(kernel) && width > 0 && height > 0 && Below(f, width, height, 0xffff)
    ensures Agree(Convolved(f, kernel, width, height), f, width, height)
  {
    var c: nat :| MiddleOnly(kernel, c) && kernel[c] == 0x1_0000;
    forall x: nat, y: nat | x < width && y < height ensures Convolved(f, kernel, width, height)(x, y) == f(x, y) {
      IdentityKernel(f, kernel, c, width, height, x, y);
    }
  }

  // ---------- a chain of passes ----------

  // The i-th pass over a picture, and a way of comparing pictures.
  type Pass = (Picture, nat) -> Picture
  type Same = (Picture, Picture) -> bool

  function Chained(pass: Pass, base: Picture, k: nat): Picture
    decreases k, base
  {
    if k <= 1 then base else pass(Chained(pass, base, k - 1), k - 1)
  }

  ghost predicate Lawful(same: Same) {
    && (forall f :: same(f, f))
    && (forall f, g, h :: same(f, g) && same(g, h) ==> same(f, h))
  }

  // Passes from 1 to k other than the j-th change nothing that shows.
  ghost predicate Idle(pass: Pass, same: Same, good: Picture -> bool, j: nat, k: nat) {
    && (forall f, i :: good(pass(f, i)))
    && (forall f, i :: 1 <= i <= k && i != j && good(f) ==> same(pass(f, i), f))
    && (forall f, g, i :: same(f, g) ==> same(pass(f, i), pass(g, i)))
  }

  lemma {:induction false} ChainIdle(pass: Pass, same: Same, good: Picture -> bool, base: Picture, j: nat, k: nat)
    requires Lawful(same) && good(base) && Idle(pass, same, good, j, j) && 1 <= k <= j
    ensures same(Chained(pass, base, k), base) && good(Chained(pass, base, k))
    decreases k
  {
    if k > 1 {
      ChainIdle(pass, same, good, base, j, k - 1);
      var f := Chained(pass, base, k - 1);
      assert same(pass(f, k - 1), f);
    }
  }

  lemma {:induction false} ChainOnce(pass: Pass, same: Same, good: Picture -> bool, base: Picture, j: nat, k: nat)
    requires Lawful(same) && good(base) && Idle(pass, same, good, j, k) && 1 <= j <= k
    ensures same(pass(Chained(pass, base, k), k), pass(base, j))
    decreases k
  {
    if k == j {
      ChainIdle(pass, same, good, base, j, k);
    } else {
      ChainOnce(pass, same, good, base, j, k - 1);
      var f := Chained(pass, base, k);
      assert good(f) && same(pass(f, k), f);
    }
  }

  // ---------- the levels ----------

  function PassOf(kernels: Kernels, width: nat, height: nat): Pass
    requires width > 0 && height > 0
  {
    (f: Picture, i: nat) => Convolved(f, kernels(i), width, height)
  }

  ghost function Alike(width: nat, height: nat): Same { (f, g) => Agree(f, g, width, height) }

  ghost function Small(width: nat, height: nat): Picture -> bool { f => Below(f, width, height, 0xffff) }

  lemma {:induction false} InputIsChained(kernels: Kernels, base: Picture, width: nat, height: nat, k: nat)
    requires width > 0 && height > 0
    ensures LevelInput(kernels, base, width, height, k) == Chained(PassOf(kernels, width, height), base, k)
    decreases k
  {
    if k > 1 { InputIsChained(kernels, base, width, height, k - 1); }
  }

  // Kernels 1 to k, except the one named, are the identity.
  ghost predicate OnlyKernel(kernels: Kernels, j: nat, k: nat) {
    forall i: nat :: 1 <= i <= k && i != j ==> Identity(kernels(i))
  }

  lemma AlikeIsLawful(width: nat, height: nat)
    ensures Lawful(Alike(width, height))
  {
    forall f, g, h | Agree(f, g, width, height) && Agree(g, h, width, height) ensures Agree(f, h, width, height) {
      AgreeThrough(f, g, h, width, height);
    }
  }

  lemma AgreeThrough(f: Picture, g: Picture, h: Picture, width: nat, height: nat)
    requires Agree(f, g, width, height) && Agree(g, h, width, height)
    ensures Agree(f, h, width, height)
  {
  }

  lemma StoredIsSmall(f: Picture, kernel: Kernel, width: nat, height: nat)
    requires width > 0 && height > 0
    ensures Below(Convolved(f, kernel, width, height), width, height, 0xffff)
  {
  }

  lemma OthersIdle(kernels: Kernels, width: nat, height: nat, j: nat, k: nat)
    requires width > 0 && height > 0 && OnlyKernel(kernels, j, k)
    ensures Idle(PassOf(kernels, width, height), Alike(width, height), Small(width, height), j, k)
  {
    var pass := PassOf(kernels, width, height);
    forall f, i ensures Below(pass(f, i), width, height, 0xffff) { StoredIsSmall(f, kernels(i), width, height); }
    forall f, i: nat | 1 <= i <= k && i != j && Below(f, width, height, 0xffff)
      ensures Agree(pass(f, i), f, width, height)
    {
      IdentityKeeps(f, kernels(i), width, height);
    }
    forall f, g, i | Agree(f, g, width, height) ensures Agree(pass(f, i), pass(g, i), width, height) {
      ConvolvedSame(f, g, kernels(i), width, height);
    }
  }

  // A level from 1 on has gone through every kernel from 1 to its own, each
  // once: with one of them any kernel and the others the identity it is that
  // kernel applied to the base picture.
  lemma {:induction false} LevelSeesKernel(kernels: Kernels, base: Picture, width: nat, height: nat, j: nat, k: nat)
    requires width > 0 && height > 0 && Below(base, width, height, 0xffff) && 1 <= j <= k && OnlyKernel(kernels, j, k)
    ensures Agree(Level(kernels, base, width, height, k), Convolved(base, kernels(j), width, height), width, height)
  {
    InputIsChained(kernels, base, width, height, k);
    AlikeIsLawful(width, height);
    OthersIdle(kernels, width, height, j, k);
    ChainOnce(PassOf(kernels, width, height), Alike(width, height), Small(width, height), base, j, k);
  }

  // Level 0 has gone through its own kernel only, and no other level through
  // that one.
  lemma {:induction false} FirstKernelAlone(kernels: Kernels, kernels': Kernels, base: Picture, width: nat,
                                            height: nat, k: nat)
    requires width > 0 && height > 0 && k >= 1 && forall i: nat :: 1 <= i <= k ==> kernels(i) == kernels'(i)
    ensures Level(kernels, base, width, height, 0) == Convolved(base, kernels(0), width, height)
    ensures Level(kernels, base, width, height, k) == Level(kernels', base, width, height, k)
    decreases k
  {
    if k > 1 { FirstKernelAlone(kernels, kernels', base, width, height, k - 1); }
  }

  // ---------- mirroring ----------

  lemma {:induction false} InputMirrorsX(kernels: Kernels, f: Picture, width: nat, height: nat, k: nat)
    requires width > 0 && height > 0 && forall i: nat :: i < k ==> Symmetric(kernels(i))
    ensures Agree(LevelInput(kernels, FlipX(f, width), width, height, k),
                  FlipX(LevelInput(kernels, f, width, height, k), width), width, height)
    decreases k
  {
    if k > 1 {
      InputMirrorsX(kernels, f, width, height, k - 1);
      OneMirrorsX(LevelInput(kernels, f, width, height, k - 1),
                  LevelInput(kernels, FlipX(f, width), width, height, k - 1), kernels(k - 1), width, height);
    }
  }

  lemma OneMirrorsX(f: Picture, g: Picture, kernel: Kernel, width: nat, height: nat)
    requires width > 0 && height > 0 && Symmetric(kernel) && Agree(g, FlipX(f, width), width, height)
    ensures Agree(Convolved(g, kernel, width, height), FlipX(Convolved(f, kernel, width, height), width), width, height)
  {
    ConvolvedSame(g, FlipX(f, width), kernel, width, height);
    forall x: nat, y: nat | x < width && y < height
      ensures Convolved(g, kernel, width, height)(x, y) == FlipX(Convolved(f, kernel, width, height), width)(x, y)
    {
      FilterMirrorsX(f, kernel, width, height, x, y);
    }
  }

  lemma {:induction false} InputMirrorsY(kernels: Kernels, f: Picture, width: nat, height: nat, k: nat)
    requires width > 0 && height > 0 && forall i: nat :: i < k ==> Symmetric(kernels(i))
    ensures Agree(LevelInput(kernels, FlipY(f, height), width, height, k),
                  FlipY(LevelInput(kernels, f, width, height, k), height), width, height)
    decreases k
  {
    if k > 1 {
      InputMirrorsY(kernels, f, width, height, k - 1);
      OneMirrorsY(LevelInput(kernels, f, width, height, k - 1),
                  LevelInput(kernels, FlipY(f, height), width, height, k - 1), kernels(k - 1), width, height);
    }
  }

  lemma OneMirrorsY(f: Picture, g: Picture, kernel: Kernel, width: nat, height: nat)
    requires width > 0 && height > 0 && Symmetric(kernel) && Agree(g, FlipY(f, height), width, height)
    ensures Agree(Convolved(g, kernel, width, height), FlipY(Convolved(f, kernel, width, height), height),
                  width, height)
  {
    ConvolvedSame(g, FlipY(f, height), kernel, width, height);
    forall x: nat, y: nat | x < width && y < height
      ensures Convolved(g, kernel, width, height)(x, y) == FlipY(Convolved(f, kernel, width, height), height)(x, y)
    {
      FilterMirrorsY(f, kernel, width, height, x, y);
    }
  }

  // Every level of the mirrored picture is the mirrored level, for the kernels
  // of the program.
  lemma {:induction false} LevelsMirror(f: Picture, width: nat, height: nat, k: nat)
    requires width > 0 && height > 0 && k < LEVELS
    ensures Agree(Level(KernelOf, FlipX(f, width), width, height, k),
                  FlipX(Level(KernelOf, f, width, height, k), width), width, height)
    ensures Agree(Level(KernelOf, FlipY(f, height), width, height, k),
                  FlipY(Level(KernelOf, f, width, height, k), height), width, height)
  {
    forall i: nat | i <= k ensures Symmetric(KernelOf(i)) { KernelChecks(i); }
    InputMirrorsX(KernelOf, f, width, height, k);
    InputMirrorsY(KernelOf, f, width, height, k);
    var kernel := KernelOf(k);
    OneMirrorsX(LevelInput(KernelOf, f, width, height, k), LevelInput(KernelOf, FlipX(f, width), width, height, k),
                kernel, width, height);
    OneMirrorsY(LevelInput(KernelOf, f, width, height, k), LevelInput(KernelOf, FlipY(f, height), width, height, k),
                kernel, width, height);
  }
}
