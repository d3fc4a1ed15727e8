/**
  The deterministic embedder. A text is hashed to a seed (the hash is a parameter);
  component i is seed * (i + 1) * 2654435761 reduced mod 2^32 and mapped to [-1, 1).
 */
module DummyEmbedder {
  import opened Outcomes
  import opened Text
  import opened Cosine

  const MODULUS := 0x1_0000_0000
  const MULTIPLIER := 2654435761
  const INVERSE := 244002641
  const HALF := 0x8000_0000

  /** The residue of the i-th component. */
  function Residue(seed: nat, i: nat): (r: nat)
    ensures r < MODULUS
  {
    seed * (i + 1) * MULTIPLIER % MODULUS
  }

  /** `value * 2.0 - 1.0` for `value = residue / 2**32`; both steps are exact in floating point. */
  function Component(residue: nat): real {
    (residue as real / MODULUS as real) * 2.0 - 1.0
  }

  function HashVector(seed: nat, dimensions: int): (v: Vector)
    ensures |v| == if dimensions < 0 then 0 else dimensions
    ensures forall i :: 0 <= i < |v| ==> v[i] == Component(Residue(seed, i))
  {
    seq(if dimensions < 0 then 0 else dimensions, i requires 0 <= i => Component(Residue(seed, i)))
  }

  /** `Embedder.embed`: None stands for the EmbeddingError on blank text. */
  function Embed(seedOf: string -> nat, dimensions: int, text: string): Option<Vector> {
    if IsBlank(text) then None else Some(HashVector(seedOf(text), dimensions))
  }

  /** The embedder as a function of the text. */
  function Model(seedOf: string -> nat, dimensions: int): string -> Option<Vector> {
    text => Embed(seedOf, dimensions, text)
  }

  class DummyEmbedder {
    const dimensions: int
    // the first eight bytes of the text's MD5 digest
    const seedOf: string -> nat

    constructor (dimensions: int, seedOf: string -> nat)
      ensures this.dimensions == dimensions && this.seedOf == seedOf
    {
      this.dimensions := dimensions;
      this.seedOf := seedOf;
    }

    method EmbedText(text: string) returns (result: Option<Vector>)
      ensures result == Embed(seedOf, dimensions, text)
    {
      if IsBlank(text) {
        return None;
      }
      var seed := seedOf(text);
      var vector: Vector := [];
      var i := 0;
      while i < dimensions
        invariant 0 <= i && (0 <= dimensions ==> i <= dimensions) && (dimensions < 0 ==> i == 0)
        invariant |vector| == i
        invariant forall k :: 0 <= k < i ==> vector[k] == Component(Residue(seed, k))
      {
        vector := vector + [Component(Residue(seed, i))];
        i := i + 1;
      }
      assert vector == HashVector(seed, dimensions);
      return Some(vector);
    }
  }

  // ---------- modular arithmetic ----------

  lemma DropMultiple(x: int, q: int)
    ensures (x + q * MODULUS) % MODULUS == x % MODULUS
  {
  }

  lemma ModTimes(x: nat, y: nat)
    ensures (x * y) % MODULUS == ((x % MODULUS) * y) % MODULUS
  {
    var q, r := x / MODULUS, x % MODULUS;
    assert x == r + q * MODULUS;
    assert x * y == r * y + (q * y) * MODULUS;
    DropMultiple(r * y, q * y);
  }

  /** A residue depends on the seed's own residue only. */
  lemma ResidueOfResidue(seed: nat, i: nat)
    ensures Residue(seed, i) == ((seed % MODULUS) * ((i + 1) * MULTIPLIER)) % MODULUS
  {
    var k := (i + 1) * MULTIPLIER;
    assert seed * (i + 1) * MULTIPLIER == seed * k;
    ModTimes(seed, k);
  }

  /** The multiplier is invertible mod 2^32, so the first residue determines the seed's. */
  lemma FirstResidue(seed: nat)
    ensures Residue(seed, 0) * INVERSE % MODULUS == seed % MODULUS
  {
    var q := (MULTIPLIER * INVERSE) / MODULUS;
    assert MULTIPLIER * INVERSE == 1 + q * MODULUS;
    ModTimes(seed * MULTIPLIER, INVERSE);
    assert (seed * MULTIPLIER) * INVERSE == seed + (seed * q) * MODULUS;
    DropMultiple(seed, seed * q);
  }

  // ---------- properties of embeddings ----------

  lemma ComponentRange(residue: nat)
    requires residue < MODULUS
    ensures -1.0 <= Component(residue) < 1.0
    ensures Component(residue) == 0.0 <==> residue == HALF
  {
  }

  lemma ComponentInjective(r: nat, s: nat)
    ensures Component(r) == Component(s) <==> r == s
  {
  }

  /** Every component lies in [-1, 1). */
  lemma EmbeddingRange(seed: nat, dimensions: int, i: nat)
    requires i < |HashVector(seed, dimensions)|
    ensures -1.0 <= HashVector(seed, dimensions)[i] < 1.0
  {
    ComponentRange(Residue(seed, i));
  }

  /** In at least one dimension, two seeds give one vector exactly when they agree mod 2^32. */
  lemma CollisionIffCongruent(seed: nat, other: nat, dimensions: int)
    requires dimensions >= 1
    ensures HashVector(seed, dimensions) == HashVector(other, dimensions) <==> seed % 4294967296 == other % 4294967296
  {
    var v, w := HashVector(seed, dimensions), HashVector(other, dimensions);
    if v == w {
      assert v[0] == w[0];
      ComponentInjective(Residue(seed, 0), Residue(other, 0));
      FirstResidue(seed);
      FirstResidue(other);
    }
    if seed % MODULUS == other % MODULUS {
      forall i | 0 <= i < |v|
        ensures v[i] == w[i]
      {
        ResidueOfResidue(seed, i);
        ResidueOfResidue(other, i);
      }
    }
  }

  lemma ModSum(x: nat, y: nat)
    ensures var sum := x % MODULUS + y % MODULUS;
      (x + y) % MODULUS == if sum < MODULUS then sum else sum - MODULUS
  {
  }

  lemma Multiples(seed: nat, i: nat, j: nat)
    ensures seed * (i + j + 2) * MULTIPLIER == seed * (i + 1) * MULTIPLIER + seed * (j + 1) * MULTIPLIER
  {
    assert seed * (i + j + 2) == seed * (i + 1) + seed * (j + 1);
  }

  lemma ResidueSum(seed: nat, i: nat, j: nat)
    ensures var sum := Residue(seed, i) + Residue(seed, j);
      Residue(seed, i + j + 1) == if sum < MODULUS then sum else sum - MODULUS
  {
    Multiples(seed, i, j);
    var x, y := seed * (i + 1) * MULTIPLIER, seed * (j + 1) * MULTIPLIER;
    assert Residue(seed, i + j + 1) == (x + y) % MODULUS;
    assert Residue(seed, i) == x % MODULUS && Residue(seed, j) == y % MODULUS;
    ModSum(x, y);
    hide Residue;
  }

  /** The first component maps the seed's multiple, reduced mod 2^32, linearly onto [-1, 1). */
  lemma FirstComponent(seed: nat, dimensions: int)
    requires dimensions >= 1
    ensures |HashVector(seed, dimensions)| == dimensions
    ensures HashVector(seed, dimensions)[0] == (seed * 2654435761 % 4294967296) as real / 2147483648.0 - 1.0
  {
    assert seed * (0 + 1) * MULTIPLIER == seed * 2654435761;
  }

  /** Measured from -1, component i + j + 1 is the sum of components i and j, modulo 2. */
  lemma Progression(seed: nat, dimensions: int, i: nat, j: nat)
    requires i + j + 1 < |HashVector(seed, dimensions)|
    ensures var v := HashVector(seed, dimensions);
      var w := (v[i] + 1.0) + (v[j] + 1.0);
      v[i + j + 1] + 1.0 == if w < 2.0 then w else w - 2.0
  {
    ResidueSum(seed, i, j);
    hide Residue;
  }

  lemma {:induction false} ZeroSquares(v: Vector)
    ensures Squares(v) == 0.0 <==> forall i :: 0 <= i < |v| ==> v[i] == 0.0
  {
    if v != [] {
      ZeroSquares(v[1..]);
      SquarePositive(v[0]);
      assert forall i :: 0 < i < |v| ==> v[i] == v[1..][i - 1];
      assert forall i :: 0 <= i < |v[1..]| ==> v[1..][i] == v[i + 1];
    }
  }

  lemma FirstComponentZero(seed: nat)
    ensures Residue(seed, 0) == HALF <==> seed % MODULUS == HALF
  {
    hide Residue;
    FirstResidue(seed);
    ResidueOfResidue(seed, 0);
    assert HALF * ((0 + 1) * MULTIPLIER) % MODULUS == HALF;
    assert HALF * INVERSE % MODULUS == HALF;
  }

  lemma SecondComponentNonzero(seed: nat)
    requires seed % MODULUS == HALF
    ensures Residue(seed, 1) == 0
  {
    hide Residue;
    ResidueOfResidue(seed, 1);
    assert HALF * ((1 + 1) * MULTIPLIER) % MODULUS == 0;
  }

  /**
    An embedding has zero norm exactly when it is empty, or has one dimension and a
    seed congruent to 2^31. In two or more dimensions no embedding has zero norm.
   */
  lemma ZeroNormIff(seed: nat, dimensions: int)
    ensures Squares(HashVector(seed, dimensions)) == 0.0 <==>
      dimensions <= 0 || (dimensions == 1 && seed % 4294967296 == 2147483648)
  {
    var v := HashVector(seed, dimensions);
    ZeroSquares(v);
    if dimensions >= 1 {
      ComponentRange(Residue(seed, 0));
      FirstComponentZero(seed);
      assert v[0] == Component(Residue(seed, 0));
      if dimensions >= 2 {
        ComponentRange(Residue(seed, 1));
        assert v[1] == Component(Residue(seed, 1));
        if seed % MODULUS == HALF {
          SecondComponentNonzero(seed);
        }
      }
    }
  }
}
