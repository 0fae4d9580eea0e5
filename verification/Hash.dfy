/** The long and the short hash: each octet of the result walks the table, once for every byte
    of the key. */
module Hash {
  import HashMap

  /** The table that is walked; the library has one, `HashMap.Map`. */
  type Table = bv8 -> bv8

  /** No byte value stands in the table twice. */
  ghost predicate Shuffles(t: Table) {
    forall x: bv8, y: bv8 :: t(x) == t(y) ==> x == y
  }

  lemma {:induction false} LibraryTableShuffles()
    ensures Shuffles(HashMap.Map)
  {
    forall x: bv8, y: bv8 | HashMap.Map(x) == HashMap.Map(y) ensures x == y {
      OriginTells(x, y);
    }
  }

  lemma {:induction false} OriginTells(x: bv8, y: bv8)
    requires HashMap.Map(x) == HashMap.Map(y)
    ensures x == y
  {
    HashMap.OriginOfMap(x);
    HashMap.OriginOfMap(y);
  }

  /** The long hash starts its octets from table places after the seed byte, the short hash
      from places before it. */
  datatype Variant = Long | Short

  /** How many octets a word has for the loops over octets to be unrolled. */
  predicate Unrolled(v: Variant, stride: nat) {
    stride == 2 || stride == 4 || (stride == 8 && v.Long?)
  }

  /** How far from the seed byte octet `n` starts. */
  function Offset(v: Variant, stride: nat, n: nat): nat
    requires n < stride
  {
    if Unrolled(v, stride) then stride - n else n + 1
  }

  /** A count as far as a byte holds it. */
  function Count(n: nat): bv8 {
    if n == 0 then 0 else Count(n - 1) + 1
  }

  /** The index of the byte of the key that seeds the octets. */
  function SeedIndex(key: seq<bv8>, stride: nat): nat
    requires key != [] && stride > 0
  {
    (if |key| < stride then |key| else stride) - 1
  }

  /** The table place `j` away from seed byte `seed`. */
  function PlaceAt(v: Variant, seed: bv8, j: bv8): bv8 {
    if v.Long? then seed + j else seed - j
  }

  /** An octet that starts as `o`, after it has walked the table with each byte of a key. */
  function Walk(t: Table, o: bv8, key: seq<bv8>): bv8 {
    if key == [] then o else t(Walk(t, o, key[..|key| - 1]) ^ key[|key| - 1])
  }

  function FirstOctet(t: Table, v: Variant, key: seq<bv8>, stride: nat, n: nat): bv8
    requires key != [] && n < stride
  {
    t(PlaceAt(v, key[SeedIndex(key, stride)], Count(Offset(v, stride, n))))
  }

  function Octet(t: Table, v: Variant, key: seq<bv8>, stride: nat, n: nat): bv8
    requires key != [] && n < stride
  {
    Walk(t, FirstOctet(t, v, key, stride, n), key)
  }

  /** The first `n` octets. */
  function Octets(t: Table, v: Variant, key: seq<bv8>, stride: nat, n: nat): (octets: seq<bv8>)
    requires key != [] && n <= stride
    ensures |octets| == n
  {
    if n == 0 then [] else Octets(t, v, key, stride, n - 1) + [Octet(t, v, key, stride, n - 1)]
  }

  /** The word whose octets are given, the highest first. */
  function Word(octets: seq<bv8>): nat {
    if octets == [] then 0 else Word(octets[..|octets| - 1]) * 256 + octets[|octets| - 1] as nat
  }

  function AllOnes(stride: nat): (octets: seq<bv8>)
    ensures |octets| == stride && forall n: nat | n < stride :: octets[n] == 0xFF
  {
    if stride == 0 then [] else AllOnes(stride - 1) + [0xFF]
  }

  /** The hash of a key, in a word of `stride` octets. */
  function Hashed(t: Table, v: Variant, key: seq<bv8>, stride: nat): nat {
    Word(if key == [] then AllOnes(stride) else Octets(t, v, key, stride, stride))
  }

  // ----- properties of the walk

  lemma {:induction false} XorIsInjective(o: bv8, o': bv8, k: bv8)
    ensures o ^ k == o' ^ k ==> o == o'
    ensures k ^ o == k ^ o' ==> o == o'
  {
  }

  /** Octets that start apart stay apart. */
  lemma {:induction false} WalkIsInjective(t: Table, o: bv8, o': bv8, key: seq<bv8>)
    requires Shuffles(t)
    requires Walk(t, o, key) == Walk(t, o', key)
    ensures o == o'
  {
    if key != [] {
      var front, k := key[..|key| - 1], key[|key| - 1];
      XorIsInjective(Walk(t, o, front), Walk(t, o', front), k);
      WalkIsInjective(t, o, o', front);
    }
  }

  /** An octet takes different walks with keys that differ in one byte. */
  lemma {:induction false} WalksPart(t: Table, o: bv8, key: seq<bv8>, i: nat, b: bv8)
    requires Shuffles(t)
    requires i < |key| && key[i] != b
    ensures Walk(t, o, key) != Walk(t, o, key[i := b])
  {
    var key', front := key[i := b], key[..|key| - 1];
    var last, last' := key[|key| - 1], key'[|key| - 1];
    if i == |key| - 1 {
      assert key'[..|key| - 1] == front;
      XorIsInjective(last, last', Walk(t, o, front));
    } else {
      assert key'[..|key| - 1] == front[i := b];
      WalksPart(t, o, front, i, b);
      XorIsInjective(Walk(t, o, front), Walk(t, o, front[i := b]), last);
    }
  }

  lemma {:induction false} OneMore(x: bv8)
    ensures (x + 1) as int == if x == 0xFF then 0 else x as int + 1
  {
  }

  lemma {:induction false} CountIsRest(n: nat)
    requires n <= 256
    ensures Count(n) as int == if n < 256 then n else 0
  {
    if n > 0 {
      CountIsRest(n - 1);
      OneMore(Count(n - 1));
    }
  }

  lemma {:induction false} CountsDiffer(a: nat, b: nat)
    requires 0 < a <= 256 && 0 < b <= 256 && Count(a) == Count(b)
    ensures a == b
  {
    CountIsRest(a);
    CountIsRest(b);
  }

  lemma {:induction false} PlacesDiffer(v: Variant, seed: bv8, j: bv8, j': bv8)
    requires PlaceAt(v, seed, j) == PlaceAt(v, seed, j')
    ensures j == j'
  {
  }

  /** No two octets of a hash are the same, in words of up to 256 octets. */
  lemma {:induction false} OctetsDiffer(t: Table, v: Variant, key: seq<bv8>, stride: nat, n: nat, m: nat)
    requires Shuffles(t)
    requires key != [] && stride <= 256 && n < stride && m < stride && n != m
    ensures Octet(t, v, key, stride, n) != Octet(t, v, key, stride, m)
  {
    if Octet(t, v, key, stride, n) == Octet(t, v, key, stride, m) {
      WalkIsInjective(t, FirstOctet(t, v, key, stride, n), FirstOctet(t, v, key, stride, m), key);
      var seed := key[SeedIndex(key, stride)];
      PlacesDiffer(v, seed, Count(Offset(v, stride, n)), Count(Offset(v, stride, m)));
      CountsDiffer(Offset(v, stride, n), Offset(v, stride, m));
    }
  }

  /** Changing a byte of a key other than its seed byte changes every octet. */
  lemma {:induction false} EveryOctetChanges(t: Table, v: Variant, key: seq<bv8>, stride: nat, i: nat, b: bv8, n: nat)
    requires Shuffles(t)
    requires i < |key| && key[i] != b && n < stride && i != SeedIndex(key, stride)
    ensures Octet(t, v, key, stride, n) != Octet(t, v, key[i := b], stride, n)
  {
    WalksPart(t, FirstOctet(t, v, key, stride, n), key, i, b);
  }

  // ----- properties of the word

  lemma {:induction false} OctetAt(t: Table, v: Variant, key: seq<bv8>, stride: nat, k: nat, n: nat)
    requires key != [] && n < k <= stride
    ensures Octets(t, v, key, stride, k)[n] == Octet(t, v, key, stride, n)
  {
    if n < k - 1 {
      OctetAt(t, v, key, stride, k - 1, n);
    }
  }

  lemma {:induction false} DigitsAreUnique(a: nat, x: nat, b: nat, y: nat)
    requires x < 256 && y < 256 && a * 256 + x == b * 256 + y
    ensures a == b && x == y
  {
  }

  /** A word has only one sequence of octets. */
  lemma {:induction false} WordIsInjective(a: seq<bv8>, b: seq<bv8>)
    requires |a| == |b| && Word(a) == Word(b)
    ensures a == b
  {
    if a != [] {
      var x, y := a[|a| - 1], b[|b| - 1];
      DigitsAreUnique(Word(a[..|a| - 1]), x as nat, Word(b[..|b| - 1]), y as nat);
      WordIsInjective(a[..|a| - 1], b[..|b| - 1]);
      SameFrontAndLast(a, b);
    }
  }

  lemma {:induction false} SameFrontAndLast<T>(a: seq<T>, b: seq<T>)
    requires |a| == |b| > 0 && a[..|a| - 1] == b[..|b| - 1] && a[|a| - 1] == b[|b| - 1]
    ensures a == b
  {
    assert a == a[..|a| - 1] + [a[|a| - 1]] && b == b[..|b| - 1] + [b[|b| - 1]];
  }

  /** The hash of the empty key is the hash of no other, in words of 2 to 256 octets. */
  lemma {:induction false} EmptyKeyStandsAlone(t: Table, v: Variant, key: seq<bv8>, stride: nat)
    requires Shuffles(t)
    requires key != [] && 2 <= stride <= 256
    ensures Hashed(t, v, key, stride) != Hashed(t, v, [], stride)
  {
    OctetsDiffer(t, v, key, stride, 0, 1);
    OctetAt(t, v, key, stride, stride, 0);
    OctetAt(t, v, key, stride, stride, 1);
    if Hashed(t, v, key, stride) == Hashed(t, v, [], stride) {
      WordIsInjective(Octets(t, v, key, stride, stride), AllOnes(stride));
    }
  }

  /** Keys that differ in one byte, other than the seed byte, have different hashes. */
  lemma {:induction false} OneByteChangesHash(t: Table, v: Variant, key: seq<bv8>, stride: nat, i: nat, b: bv8)
    requires Shuffles(t)
    requires i < |key| && key[i] != b && stride > 0 && i != SeedIndex(key, stride)
    ensures Hashed(t, v, key, stride) != Hashed(t, v, key[i := b], stride)
  {
    var key' := key[i := b];
    EveryOctetChanges(t, v, key, stride, i, b, 0);
    OctetAt(t, v, key, stride, stride, 0);
    OctetAt(t, v, key', stride, stride, 0);
    if Hashed(t, v, key, stride) == Hashed(t, v, key', stride) {
      WordIsInjective(Octets(t, v, key, stride, stride), Octets(t, v, key', stride, stride));
    }
  }

  /** With the library's own table the hash of the empty key stands alone, and every byte but the
      seed byte tells. */
  lemma {:induction false} LibraryHashes(v: Variant, key: seq<bv8>, stride: nat, i: nat, b: bv8)
    requires 2 <= stride <= 256 && i < |key| && key[i] != b && i != SeedIndex(key, stride)
    ensures Hashed(HashMap.Map, v, key, stride) != Hashed(HashMap.Map, v, [], stride)
    ensures Hashed(HashMap.Map, v, key, stride) != Hashed(HashMap.Map, v, key[i := b], stride)
  {
    LibraryTableShuffles();
    EmptyKeyStandsAlone(HashMap.Map, v, key, stride);
    OneByteChangesHash(HashMap.Map, v, key, stride, i, b);
  }

  /** A step takes an octet to the table entry at its exclusive or with a byte of the key. */
  lemma {:induction false} StepIsXor(t: Table, o: bv8, b: bv8)
    ensures Tread(t)(o, b) == t(o ^ b)
  {
  }

  lemma {:induction false} StepsOfTwo<T>(step: (T, bv8) -> T, o: T, key: seq<bv8>)
    requires |key| == 2
    ensures Steps(step, o, key) == step(step(o, key[0]), key[1])
  {
    assert key[..1][..0] == [] && key[..1][0] == key[0];
    assert Steps(step, o, key[..1]) == step(o, key[0]);
  }

  /** What an octet that starts at table place `at` comes to, with a key of two bytes: it steps with the
      first byte, then with the second. */
  function WalkOfTwo(t: Table, at: bv8, a: bv8, b: bv8): bv8 {
    Tread(t)(Tread(t)(t(at), a), b)
  }

  lemma {:induction false} OctetOfTwo(t: Table, v: Variant, key: seq<bv8>, stride: nat, n: nat, at: bv8)
    requires |key| == 2 && 2 <= stride && n < stride && at == PlaceAt(v, key[1], Count(Offset(v, stride, n)))
    ensures Octet(t, v, key, stride, n) == WalkOfTwo(t, at, key[0], key[1])
  {
    var o := t(at);
    assert FirstOctet(t, v, key, stride, n) == o;
    StepsAreWalk(t, o, key);
    StepsOfTwo(Tread(t), o, key);
  }

  /** Keys longer than the word are seeded by the byte that would fill it. */
  lemma {:induction false} SeedOfLongKey(t: Table, key: seq<bv8>)
    requires |key| >= 4
    ensures FirstOctet(t, Long, key, 4, 3) == t(key[3] + 1) && FirstOctet(t, Short, key, 2, 1) == t(key[1] - 1)
  {
    Counts();
  }

  lemma {:induction false} WordOfTwo(x: bv8, y: bv8)
    ensures Word([x, y]) == x as nat * 256 + y as nat
  {
    assert [x, y][..1] == [x] && [x][..0] == [] && Word([x]) == x as nat;
  }

  lemma {:induction false} WordOfMore(xs: seq<bv8>, y: bv8)
    ensures Word(xs + [y]) == Word(xs) * 256 + y as nat
  {
    assert (xs + [y])[..|xs|] == xs;
  }

  lemma {:induction false} Counts()
    ensures Count(1) == 1 && Count(2) == 2 && Count(3) == 3 && Count(4) == 4
  {
    assert Count(0) == 0;
  }

  /** The long hash in words of four octets: the second byte seeds them, the first octet the furthest. */
  lemma {:induction false} LongHashOfTwo(t: Table, a: bv8, b: bv8)
    ensures Hashed(t, Long, [a, b], 4) ==
            ((WalkOfTwo(t, b + 4, a, b) as nat * 256 + WalkOfTwo(t, b + 3, a, b) as nat) * 256
             + WalkOfTwo(t, b + 2, a, b) as nat) * 256 + WalkOfTwo(t, b + 1, a, b) as nat
  {
    Counts();
    OctetOfTwo(t, Long, [a, b], 4, 0, b + 4);
    OctetOfTwo(t, Long, [a, b], 4, 1, b + 3);
    OctetOfTwo(t, Long, [a, b], 4, 2, b + 2);
    OctetOfTwo(t, Long, [a, b], 4, 3, b + 1);
    FourOctets(t, Long, [a, b]);
  }

  lemma {:induction false} FourOctets(t: Table, v: Variant, key: seq<bv8>)
    requires key != []
    ensures Hashed(t, v, key, 4) ==
            ((Octet(t, v, key, 4, 0) as nat * 256 + Octet(t, v, key, 4, 1) as nat) * 256
             + Octet(t, v, key, 4, 2) as nat) * 256 + Octet(t, v, key, 4, 3) as nat
  {
    var o0, o1 := Octet(t, v, key, 4, 0), Octet(t, v, key, 4, 1);
    var o2, o3 := Octet(t, v, key, 4, 2), Octet(t, v, key, 4, 3);
    var two := Octets(t, v, key, 4, 2);
    assert Octets(t, v, key, 4, 1) == [o0] && two == [o0, o1];
    WordOfTwo(o0, o1);
    WordOfMore(two, o2);
    WordOfMore(two + [o2], o3);
    assert Octets(t, v, key, 4, 3) == two + [o2];
    assert Octets(t, v, key, 4, 4) == two + [o2] + [o3];
  }

  /** The short hash in words of two octets goes the other way in the table. */
  lemma {:induction false} ShortHashOfTwo(t: Table, a: bv8, b: bv8)
    ensures Hashed(t, Short, [a, b], 2) == WalkOfTwo(t, b - 2, a, b) as nat * 256 + WalkOfTwo(t, b - 1, a, b) as nat
  {
    Counts();
    OctetOfTwo(t, Short, [a, b], 2, 0, b - 2);
    OctetOfTwo(t, Short, [a, b], 2, 1, b - 1);
    var o0, o1 := Octet(t, Short, [a, b], 2, 0), Octet(t, Short, [a, b], 2, 1);
    assert Octets(t, Short, [a, b], 2, 1) == [o0] && Octets(t, Short, [a, b], 2, 2) == [o0, o1];
    WordOfTwo(o0, o1);
  }

  // ----- the functions

  /** Gives octets `n + 1` and `n` the next two starts. */
  method FillTwo<T>(start: nat -> T, octets: array<T>, n: nat, j: nat) returns (j': nat)
    requires n + 1 < octets.Length
    modifies octets
    ensures j' == j + 2 && octets[n + 1] == start(j + 1) && octets[n] == start(j + 2)
    ensures forall m | 0 <= m < octets.Length && m != n && m != n + 1 :: octets[m] == old(octets[m])
  {
    j' := j + 1;
    octets[n + 1] := start(j');
    j' := j' + 1;
    octets[n] := start(j');
  }

  /** Gives every octet its start. */
  method Fill<T>(start: nat -> T, v: Variant, octets: array<T>)
    modifies octets
    ensures forall n: nat | n < octets.Length :: octets[n] == start(Offset(v, octets.Length, n))
  {
    var stride, j: nat := octets.Length, 0;
    if Unrolled(v, stride) {
      if stride == 8 {
        j := FillTwo(start, octets, 6, j);
        j := FillTwo(start, octets, 4, j);
      }
      if stride >= 4 {
        j := FillTwo(start, octets, 2, j);
      }
      j := FillTwo(start, octets, 0, j);
    } else {
      for n: nat := 0 to stride
        invariant j == n
        invariant forall m: nat | m < n :: octets[m] == start(m + 1)
      {
        j := j + 1;
        octets[n] := start(j);
      }
    }
  }

  /** Octets `n + 1` and `n` make one step. */
  method StepTwo<T>(step: T -> T, octets: array<T>, n: nat)
    requires n + 1 < octets.Length
    modifies octets
    ensures octets[n + 1] == step(old(octets[n + 1])) && octets[n] == step(old(octets[n]))
    ensures forall m | 0 <= m < octets.Length && m != n && m != n + 1 :: octets[m] == old(octets[m])
  {
    octets[n + 1] := step(octets[n + 1]);
    octets[n] := step(octets[n]);
  }

  /** Every octet makes one step. */
  method StepAll<T>(step: T -> T, v: Variant, octets: array<T>)
    modifies octets
    ensures forall n: nat | n < octets.Length :: octets[n] == step(old(octets[n]))
  {
    var stride := octets.Length;
    if Unrolled(v, stride) {
      if stride == 8 {
        StepTwo(step, octets, 6);
        StepTwo(step, octets, 4);
      }
      if stride >= 4 {
        StepTwo(step, octets, 2);
      }
      StepTwo(step, octets, 0);
    } else {
      for n: nat := 0 to stride
        invariant forall m: nat | m < n :: octets[m] == step(old(octets[m]))
        invariant forall m: nat | n <= m < stride :: octets[m] == old(octets[m])
      {
        octets[n] := step(octets[n]);
      }
    }
  }

  /** Steps with the bytes of a key, one after the other. */
  function Steps<T>(step: (T, bv8) -> T, o: T, key: seq<bv8>): T {
    if key == [] then o else step(Steps(step, o, key[..|key| - 1]), key[|key| - 1])
  }

  /** The step that walks a table. */
  function Tread(t: Table): (bv8, bv8) -> bv8 {
    (o, b) => t(o ^ b)
  }

  lemma {:induction false} StepsAreWalk(t: Table, o: bv8, key: seq<bv8>)
    ensures Steps(Tread(t), o, key) == Walk(t, o, key)
  {
    if key != [] {
      StepsAreWalk(t, o, key[..|key| - 1]);
    }
  }

  /** Every octet makes a step with every byte of the key. */
  method StepThrough<T>(step: (T, bv8) -> T, v: Variant, key: seq<bv8>, octets: array<T>)
    modifies octets
    ensures forall n: nat | n < octets.Length :: octets[n] == Steps(step, old(octets[n]), key)
  {
    for k: nat := 0 to |key|
      invariant forall n: nat | n < octets.Length :: octets[n] == Steps(step, old(octets[n]), key[..k])
    {
      var b := key[k];
      StepAll((o: T) => step(o, b), v, octets);
      assert key[..k + 1][..k] == key[..k];
    }
    assert key[..|key|] == key;
  }

  /** The octets of a key, in place. */
  method WalkAll(t: Table, v: Variant, key: seq<bv8>, octets: array<bv8>)
    requires key != [] && octets.Length > 0
    modifies octets
    ensures forall n: nat | n < octets.Length :: octets[n] == Octet(t, v, key, octets.Length, n)
  {
    var stride := octets.Length;
    var i := if |key| < stride then |key| else stride;
    i := i - 1;
    var seed := key[i];
    Fill(j => t(PlaceAt(v, seed, Count(j))), v, octets);
    forall n: nat | n < stride ensures Steps(Tread(t), octets[n], key) == Octet(t, v, key, stride, n) {
      StepsAreWalk(t, octets[n], key);
    }
    StepThrough(Tread(t), v, key, octets);
  }

  /** Puts the octets together, the first of them highest. */
  method Assemble(octets: array<bv8>) returns (output: nat)
    ensures output == Word(octets[..])
  {
    output := 0;
    for n: nat := 0 to octets.Length
      invariant output == Word(octets[..n])
    {
      assert octets[..n + 1][..n] == octets[..n];
      output := output * 256;
      output := output + octets[n] as nat;
    }
    assert octets[..octets.Length] == octets[..];
  }

  /** The hash of a key. */
  method Hash(t: Table, v: Variant, key: seq<bv8>, stride: nat) returns (output: nat)
    requires stride > 0
    ensures output == Hashed(t, v, key, stride)
  {
    if key == [] {
      return Word(AllOnes(stride));
    }
    var octets := new bv8[stride](_ => 0);
    WalkAll(t, v, key, octets);
    OctetsAre(t, v, key, octets[..]);
    output := Assemble(octets);
  }

  lemma {:induction false} OctetsAre(t: Table, v: Variant, key: seq<bv8>, octets: seq<bv8>)
    requires key != [] && forall n: nat | n < |octets| :: octets[n] == Octet(t, v, key, |octets|, n)
    ensures octets == Octets(t, v, key, |octets|, |octets|)
  {
    forall n: nat | n < |octets| ensures octets[n] == Octets(t, v, key, |octets|, |octets|)[n] {
      OctetAt(t, v, key, |octets|, |octets|, n);
    }
  }
}
