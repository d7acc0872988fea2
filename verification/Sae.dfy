/** The SAE bignum entry points of the Wi-Fi port (chips/ws63/rf/src/crypto_sae.rs): pointer checks,
    dispatch to the P-256 hardware power, and rejection sampling below a modulus. The software
    bignum library and the hardware are parameters with the contracts stated here. */
module Sae {
  import opened Arithmetic
  import opened BigEndian
  import opened EulerCriterion
  import opened NumberTheory
  import opened P256
  import opened Sampling
  import opened Words
  import opened Wrappers

  const BIGNUM_MAGIC: Word := 0x424e_3634
  const OWNED: Word := 1
  const MAX_RANDOM_REJECTIONS: nat := 128
  const USIZE_MAX: nat := 0xFFFF_FFFF

  // ----- address ranges

  function CheckedRange(address: nat, length: nat): Option<(nat, nat)> {
    if address + length <= USIZE_MAX then Some((address, address + length)) else None
  }

  function RangesOverlap(a: nat, aLen: nat, b: nat, bLen: nat): Option<bool> {
    match (CheckedRange(a, aLen), CheckedRange(b, bLen))
    case (Some(ra), Some(rb)) => Some(ra.0 < rb.1 && rb.0 < ra.1)
    case _ => None
  }

  predicate ObjectAliasIsValid(a: nat, aLen: nat, b: nat, bLen: nat) {
    a == b || RangesOverlap(a, aLen, b, bLen) == Some(false)
  }

  predicate InRange(x: nat, start: nat, len: nat) { start <= x < start + len }

  ghost predicate ShareByte(a: nat, aLen: nat, b: nat, bLen: nat) {
    exists x: nat :: InRange(x, a, aLen) && InRange(x, b, bLen)
  }

  /** The overlap test tells whether the ranges share a byte, except that an empty range strictly
      inside another one is called overlapping. */
  lemma OverlapExact(a: nat, aLen: nat, b: nat, bLen: nat)
    requires a + aLen <= USIZE_MAX && b + bLen <= USIZE_MAX
    ensures RangesOverlap(a, aLen, b, bLen) == Some(ShareByte(a, aLen, b, bLen))
       <==> !(aLen == 0 && b < a < b + bLen) && !(bLen == 0 && a < b < a + aLen)
  {
    var x := if a <= b then b else a;
    if InRange(x, a, aLen) && InRange(x, b, bLen) {
      assert ShareByte(a, aLen, b, bLen);
    }
  }

  /** An output of no bytes inside a three-byte object: refused, though no byte is shared. */
  lemma EmptyRangeOverlaps()
    ensures RangesOverlap(5, 0, 4, 3) == Some(true) && !ShareByte(5, 0, 4, 3)
  {
  }

  /** Two objects pass when they are the same, or both lie in the address space and share no byte. */
  lemma AliasExact(a: nat, b: nat, size: nat)
    requires size > 0
    ensures ObjectAliasIsValid(a, size, b, size) <==>
            a == b || (a + size <= USIZE_MAX && b + size <= USIZE_MAX && !ShareByte(a, size, b, size))
  {
    if a + size <= USIZE_MAX && b + size <= USIZE_MAX {
      OverlapExact(a, size, b, size);
    }
  }

  // ----- bignum objects in the C heap

  datatype BignumObject = BignumObject(magic: Word, ownership: Word, value: nat)

  predicate Aligned(pointer: nat) { pointer != 0 && pointer % 4 == 0 }

  type Size = n: nat | n > 0 witness 1

  class BignumHeap {
    const objectSize: Size // size_of::<BignumObject>()
    var objects: map<nat, BignumObject>

    constructor (objectSize: Size)
      ensures this.objectSize == objectSize && objects == map[]
    {
      this.objectSize := objectSize;
      objects := map[];
    }

    /** What C callers may pass: null, a misaligned pointer, or the address of an object. */
    ghost predicate Pointer(p: nat)
      reads this
    {
      Aligned(p) ==> p in objects
    }

    /** A bignum object stands at p: `bignum_clone` reads it. */
    ghost predicate Readable(p: nat)
      reads this
    {
      p != 0 && p % 4 == 0 && p in objects && objects[p].magic == 0x424e_3634
    }

    /** And it owns its storage. */
    ghost predicate Owned(p: nat)
      reads this
    {
      Readable(p) && objects[p].ownership == 1
    }

    /** `bignum_clone`. */
    function Clone(p: nat): (value: Option<nat>)
      requires Pointer(p)
      reads this
      ensures forall v :: value == Some(v) <==> Readable(p) && objects[p].value == v
    {
      if Aligned(p) && objects[p].magic == BIGNUM_MAGIC then Some(objects[p].value) else None
    }

    predicate Writable(p: nat)
      requires Pointer(p)
      reads this
      ensures Writable(p) <==> Owned(p)
    {
      Aligned(p) && objects[p].magic == BIGNUM_MAGIC && objects[p].ownership == OWNED
    }

    method Store(p: nat, value: nat) returns (status: int)
      requires Pointer(p)
      modifies this
      ensures status == if old(Owned(p)) then 0 else -1
      ensures status == 0 ==> p in objects && Pointer(p) && Clone(p) == Some(value)
      ensures objects == if status == 0 then old(objects)[p := old(objects)[p].(value := value)] else old(objects)
    {
      if !Writable(p) {
        return -1;
      }
      objects := objects[p := objects[p].(value := value)];
      return 0;
    }

    /** The same object, or two in the address space that share no byte. */
    ghost predicate PairOk(a: nat, b: nat) {
      a == b || (a + objectSize <= USIZE_MAX && b + objectSize <= USIZE_MAX && !ShareByte(a, objectSize, b, objectSize))
    }

    /** No null pointers, and any two of the objects are the same or apart. */
    ghost predicate AliasesOk(output: nat, inputs: seq<nat>) {
      && output != 0
      && forall i :: 0 <= i < |inputs| ==>
           && inputs[i] != 0
           && PairOk(output, inputs[i])
           && forall j :: 0 <= j < i ==> PairOk(inputs[i], inputs[j])
    }

    method BignumAliases(output: nat, inputs: seq<nat>) returns (ok: bool)
      ensures ok <==> AliasesOk(output, inputs)
    {
      if output == 0 {
        return false;
      }
      for i := 0 to |inputs|
        invariant AliasesOk(output, inputs[..i])
      {
        AliasExact(output, inputs[i], objectSize);
        if inputs[i] == 0 || !ObjectAliasIsValid(output, objectSize, inputs[i], objectSize) {
          assert !PairOk(output, inputs[i]) || inputs[i] == 0;
          return false;
        }
        for j := 0 to i
          invariant forall k :: 0 <= k < j ==> PairOk(inputs[i], inputs[k])
        {
          AliasExact(inputs[i], inputs[j], objectSize);
          if !ObjectAliasIsValid(inputs[i], objectSize, inputs[j], objectSize) {
            assert !PairOk(inputs[i], inputs[j]);
            return false;
          }
        }
      }
      assert inputs[..|inputs|] == inputs;
      return true;
    }

    /** `crypto_bignum_inverse`. `library` is what the software inverse returns, `hardwareOk` whether
        the hardware reports success. */
    method Inverse(value: nat, modulus: nat, result: nat, hardwareOk: bool, library: Option<nat>) returns (status: int)
      requires IsPrime(PRIME)
      requires Pointer(value) && Pointer(modulus) && Pointer(result)
      modifies this
      ensures status == 0 || status == -1
      ensures status == -1 ==> objects == old(objects)
      ensures status == 0 ==> AliasesOk(result, [value, modulus])
      ensures status == 0 ==> old(Readable(value)) && old(Readable(modulus)) && old(Owned(result))
      ensures AliasesOk(result, [value, modulus]) && old(Readable(value)) && old(Readable(modulus)) && old(Owned(result)) ==>
                var a, m := old(objects)[value].value, old(objects)[modulus].value;
                && (status == 0 <==> if m == PRIME && a < PRIME then a != 0 && hardwareOk else library.Some?)
                && (status == 0 ==>
                      exists r: nat ::
                        && objects == old(objects)[result := old(objects)[result].(value := r)]
                        && if m == PRIME && a < PRIME then r < PRIME && (a * r) % PRIME == 1 else r == library.value)
    {
      var ok := BignumAliases(result, [value, modulus]);
      if !ok {
        return -1;
      }
      var a, m := Clone(value), Clone(modulus);
      if a.None? || m.None? {
        return -1;
      }
      var resultValue := library;
      if BignumIsPrime(m.value) && ToField(a.value).Some? {
        var fieldValue := ToField(a.value).value;
        if a.value == 0 || !hardwareOk {
          return -1;
        }
        resultValue := Some(ValueOf(HardwarePower(fieldValue, InverseExponent())));
        HardwareInverts(a.value);
      }
      if resultValue.None? {
        return -1;
      }
      status := Store(result, resultValue.value);
    }

    /** `crypto_bignum_legendre`; `library` is the answer of the software symbol. */
    method Legendre(value: nat, prime: nat, hardwareOk: bool, library: Option<Symbol>) returns (symbol: int)
      requires IsPrime(PRIME)
      requires Pointer(value) && Pointer(prime)
      ensures !PairOk(value, prime) || !Readable(value) || !Readable(prime) ==> symbol == -2
      ensures PairOk(value, prime) && Readable(value) && Readable(prime) ==>
                var x, p := objects[value].value, objects[prime].value;
                symbol == if p != PRIME || x >= PRIME then SymbolStatus(library)
                          else if !hardwareOk then -2
                          else if x == 0 then 0
                          else if IsSquare(x, PRIME) then 1
                          else -1
    {
      AliasExact(value, prime, objectSize);
      if !ObjectAliasIsValid(value, objectSize, prime, objectSize) {
        return -2;
      }
      var x, p := Clone(value), Clone(prime);
      if x.None? || p.None? {
        return -2;
      }
      var result := library;
      if BignumIsPrime(p.value) && ToField(x.value).Some? {
        if !hardwareOk {
          return -2;
        }
        result := HardwareLegendre(ToField(x.value).value, x.value);
      }
      return SymbolStatus(result);
    }

    /** The power on the hardware, and the symbol that its result names. */
    method HardwareLegendre(fieldValue: seq<Byte>, ghost x: nat) returns (result: Option<Symbol>)
      requires IsPrime(PRIME) && x < PRIME && fieldValue == Encode(x, 32)
      ensures result == Some(if x == 0 then Zero else if IsSquare(x, PRIME) then Residue else NonResidue)
    {
      LegendreExact(x);
      result := LegendreResult(HardwarePower(fieldValue, LegendreExponent()));
    }

    /** `crypto_bignum_rand`. `draws[k]` is what the entropy source gives in round k, None on failure. */
    method Rand(result: nat, modulus: nat, draws: seq<Option<seq<Byte>>>) returns (status: int)
      requires Pointer(result) && Pointer(modulus)
      requires Readable(modulus) && objects[modulus].value > 0 ==> AreDraws(draws, objects[modulus].value)
      modifies this
      ensures status == 0 || status == -1
      ensures status == 0 <==>
                && AliasesOk(result, [modulus]) && old(Readable(modulus)) && old(Owned(result))
                && old(objects)[modulus].value > 0 && Sample(draws, old(objects)[modulus].value, 0).Some?
      ensures status != 0 ==> objects == old(objects)
      ensures status == 0 ==>
                var v := Sample(draws, old(objects)[modulus].value, 0).value;
                v < old(objects)[modulus].value && objects == old(objects)[result := old(objects)[result].(value := v)]
    {
      var ok := BignumAliases(result, [modulus]);
      if !ok {
        return -1;
      }
      var m := Clone(modulus);
      if m.None? {
        return -1;
      }
      var modulusBytes := MinimalBytes(m.value);
      MinimalBytesMeaning(m.value);
      var topMask := EntropyTopMask(if modulusBytes == [] then 0 else modulusBytes[0]);
      if topMask.None? {
        return -1;
      }
      for k := 0 to MAX_RANDOM_REJECTIONS
        invariant Sample(draws, m.value, k) == Sample(draws, m.value, 0)
        invariant objects == old(objects)
      {
        if draws[k].None? {
          return -1;
        }
        var entropy := draws[k].value;
        AndBound(entropy[0], topMask.value, 8);
        entropy := entropy[0 := AndBits(entropy[0], topMask.value, 8)];
        var candidate := ValueOf(entropy);
        if candidate < m.value {
          assert Sample(draws, m.value, k) == Some(candidate);
          status := Store(result, candidate);
          return;
        }
      }
      return -1;
    }
  }

  // ----- the outcome of the sampling rounds

  /** One draw for each of the 128 rounds, each as wide as the modulus unless the source fails. */
  ghost predicate AreDraws(draws: seq<Option<seq<Byte>>>, modulus: nat) {
    && |draws| == 128
    && forall k :: 0 <= k < |draws| && draws[k].Some? ==> IsDraw(draws[k].value, modulus)
  }

  /** What the rounds from number k on produce. */
  ghost function Sample(draws: seq<Option<seq<Byte>>>, modulus: nat, k: nat): Option<nat>
    requires AreDraws(draws, modulus) && k <= |draws|
    decreases |draws| - k
  {
    if k == |draws| || draws[k].None? then None
    else if Candidate(draws[k].value, modulus) < modulus then Some(Candidate(draws[k].value, modulus))
    else Sample(draws, modulus, k + 1)
  }

  /** Rounds k to n - 1 are rejected and round n draws one of the raw buffers of `v`. */
  ghost predicate SampledAt(draws: seq<Option<seq<Byte>>>, modulus: nat, k: nat, n: int, v: nat)
    requires AreDraws(draws, modulus) && v < modulus
  {
    && k <= n < |draws|
    && (forall j :: k <= j < n ==> draws[j].Some? && Candidate(draws[j].value, modulus) >= modulus)
    && draws[n].Some? && StandsFor(draws[n].value, modulus, v)
  }

  lemma {:induction false} SampleSound(draws: seq<Option<seq<Byte>>>, modulus: nat, k: nat) returns (n: int)
    requires AreDraws(draws, modulus) && k <= |draws| && Sample(draws, modulus, k).Some?
    ensures Sample(draws, modulus, k).value < modulus
    ensures SampledAt(draws, modulus, k, n, Sample(draws, modulus, k).value)
    decreases |draws| - k
  {
    var candidate := Candidate(draws[k].value, modulus);
    if candidate < modulus {
      n := k;
      PreimagesExact(candidate, modulus, draws[k].value);
    } else {
      n := SampleSound(draws, modulus, k + 1);
    }
  }

  lemma {:induction false} SampleComplete(draws: seq<Option<seq<Byte>>>, modulus: nat, k: nat, n: nat, v: nat)
    requires AreDraws(draws, modulus) && v < modulus && SampledAt(draws, modulus, k, n, v)
    ensures Sample(draws, modulus, k) == Some(v)
    decreases n - k
  {
    if k == n {
      PreimagesExact(v, modulus, draws[n].value);
    } else {
      SampleComplete(draws, modulus, k + 1, n, v);
    }
  }

  /** Only values below the modulus are produced, and each exactly by the draws that reject some rounds
      and then draw one of its own raw buffers. */
  lemma SampleExact(draws: seq<Option<seq<Byte>>>, modulus: nat, v: nat)
    requires AreDraws(draws, modulus)
    ensures Sample(draws, modulus, 0) == Some(v) <==> v < modulus && exists n :: SampledAt(draws, modulus, 0, n, v)
  {
    if Sample(draws, modulus, 0) == Some(v) {
      var n := SampleSound(draws, modulus, 0);
    }
    if v < modulus && exists n :: SampledAt(draws, modulus, 0, n, v) {
      var n :| SampledAt(draws, modulus, 0, n, v);
      SampleComplete(draws, modulus, 0, n, v);
    }
  }

  // ----- the P-256 dispatch

  datatype Symbol = NonResidue | Zero | Residue

  /** The symbol as C has it, and -2 for none. */
  function SymbolStatus(result: Option<Symbol>): (status: int)
    ensures result == if status == 0 then Some(Zero) else if status == 1 then Some(Residue)
                      else if status == -1 then Some(NonResidue) else None
    ensures -2 <= status <= 1
  {
    match result
    case Some(NonResidue) => -1
    case Some(Zero) => 0
    case Some(Residue) => 1
    case None => -2
  }

  lemma FieldWidth()
    ensures PRIME < Pow256(32)
  {
    PrimeDecodes();
    ValueBound(FieldPrime());
  }

  /** `write_be` into 32 bytes, which fails for wider numbers, compared with the prime's bytes. */
  predicate BignumIsPrime(value: nat)
    ensures BignumIsPrime(value) <==> value == PRIME
  {
    FieldWidth();
    PrimeDecodes();
    ValueReadsBack(FieldPrime());
    value < Pow256(32) && (EncodeReadsBack(value, 32); Encode(value, 32) == FieldPrime())
  }

  /** The 32-byte field element of a number: None when it is too wide or not below the prime. */
  function ToField(value: nat): (element: Option<seq<Byte>>)
    ensures element == if value < PRIME then Some(Encode(value, 32)) else None
  {
    FieldWidth();
    if value < Pow256(32) && value < PRIME then Some(Encode(value, 32)) else None
  }

  /** Contract of the hardware: exponentiation modulo the prime, on 32-byte strings. */
  function HardwarePower(base: seq<Byte>, exponent: seq<Byte>): seq<Byte> {
    Encode(Pow(ValueOf(base), ValueOf(exponent)) % PRIME, 32)
  }

  predicate AllZero(bytes: seq<Byte>) {
    forall i :: 0 <= i < |bytes| ==> bytes[i] == 0
  }

  function LegendreResult(value: seq<Byte>): Option<Symbol> {
    if AllZero(value) then Some(Zero)
    else if value == FieldOne() then Some(Residue)
    else if value == FieldMinusOne() then Some(NonResidue)
    else None
  }

  lemma HardwarePowerValue(base: nat, exponent: seq<Byte>)
    requires base < PRIME
    ensures ValueOf(HardwarePower(Encode(base, 32), exponent)) == Pow(base, ValueOf(exponent)) % PRIME
  {
    FieldWidth();
    EncodeReadsBack(base, 32);
    EncodeReadsBack(Pow(base, ValueOf(exponent)) % PRIME, 32);
  }

  /** The power of the inverse exponent is the inverse. */
  lemma HardwareInverts(a: nat)
    requires IsPrime(PRIME) && 0 < a < PRIME
    ensures var r := ValueOf(HardwarePower(Encode(a, 32), InverseExponent()));
            r < PRIME && (a * r) % PRIME == 1
  {
    HardwarePowerValue(a, InverseExponent());
    InverseExponentDecodes();
    QuotientRemainder(a, PRIME, 0, a);
    InversePower(a, PRIME);
  }

  lemma {:induction false} AllZeroMeansZero(bytes: seq<Byte>)
    ensures AllZero(bytes) <==> ValueOf(bytes) == 0
  {
    if bytes != [] {
      AllZeroMeansZero(bytes[..|bytes| - 1]);
    }
  }

  /** Strings of one width are equal when their values are. */
  lemma SameValue(s: seq<Byte>, t: seq<Byte>)
    requires |s| == |t|
    ensures s == t <==> ValueOf(s) == ValueOf(t)
  {
    ValueReadsBack(s);
    ValueReadsBack(t);
  }

  /** The three-way comparison names the symbol of 0, 1 and -1 and fails on every other element. */
  lemma LegendreResultOf(value: seq<Byte>)
    requires |value| == 32
    ensures LegendreResult(value) ==
            if ValueOf(value) == 0 then Some(Zero)
            else if ValueOf(value) == 1 then Some(Residue)
            else if ValueOf(value) == PRIME - 1 then Some(NonResidue)
            else None
  {
    AllZeroMeansZero(value);
    SameValue(value, FieldOne());
    SameValue(value, FieldMinusOne());
    OneDecodes();
    MinusOneDecodes();
  }

  /** The hardware path never fails on a field element and tells squares from non-squares. */
  lemma LegendreExact(x: nat)
    requires IsPrime(PRIME) && x < PRIME
    ensures LegendreResult(HardwarePower(Encode(x, 32), LegendreExponent())) ==
            Some(if x == 0 then Zero else if IsSquare(x, PRIME) then Residue else NonResidue)
  {
    HardwarePowerValue(x, LegendreExponent());
    LegendreExponentDecodes();
    LegendreResultOf(HardwarePower(Encode(x, 32), LegendreExponent()));
    QuotientRemainder(x, PRIME, 0, x);
    if x == 0 {
      PowOfZero((PRIME - 1) / 2);
    } else {
      PrimeIsFips(WORD_LIMIT);
      Criterion(x, PRIME);
    }
  }

  lemma PowOfZero(n: nat)
    requires n > 0
    ensures Pow(0, n) == 0
  {
  }
}
