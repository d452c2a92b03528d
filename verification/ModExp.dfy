/**
 The modular exponentiation engines: the Montgomery route for one value, the
 eight-lane chunks, the accelerator slices, and the split between the two.
 */
module ModExp {
  import opened BigNum
  import opened NumberTheory
  import opened Wrappers

  const CRYPTO_MB_SIZE := 8
  const QAT_BATCH_SIZE := 1024

  /** Equally long vectors with odd moduli, as Montgomery arithmetic demands. */
  predicate Batch(base: seq<int>, exp: seq<nat>, mod: seq<int>) {
    |base| == |exp| == |mod| && forall i :: 0 <= i < |mod| ==> 0 < mod[i] && mod[i] % 2 == 1
  }

  /** What every engine is for: base^exp mod modulus, lane by lane and in order. */
  function Pointwise(base: seq<int>, exp: seq<nat>, mod: seq<int>): (r: seq<int>)
    requires Batch(base, exp, mod)
    ensures |r| == |base|
  {
    seq(|base|, i requires 0 <= i < |base| => ModPow(base[i], exp[i], mod[i]))
  }

  /** Every lane is the residue of the power. */
  lemma PointwiseLanes(base: seq<int>, exp: seq<nat>, mod: seq<int>)
    requires Batch(base, exp, mod)
    ensures forall i :: 0 <= i < |base| ==> 0 < mod[i]
    ensures forall i :: 0 <= i < |base| ==>
      0 <= Pointwise(base, exp, mod)[i] < mod[i] && Cong(Pointwise(base, exp, mod)[i], Pow(base[i], exp[i]), mod[i])
  {
    hide Pow, Cong;
    forall i | 0 <= i < |base|
      ensures 0 <= Pointwise(base, exp, mod)[i] < mod[i]
      ensures Cong(Pointwise(base, exp, mod)[i], Pow(base[i], exp[i]), mod[i])
    {
      assert Pointwise(base, exp, mod)[i] == ModPow(base[i], exp[i], mod[i]);
    }
  }

  // ---- one value, by Montgomery multiplication -------------------------------------

  /** ippsMontMul: the product divided by r modulo m. */
  function MontMul(a: int, b: int, r: int, m: int): int
    requires 0 < m
  {
    (a * b) * Inverse(r, m) % m
  }

  /** ippsMontForm. */
  function MontForm(a: int, r: int, m: int): int
    requires 0 < m
  {
    a * r % m
  }

  /** ippsMontExp: repeated Montgomery multiplication, starting from the image of 1. */
  function MontExp(b: int, e: nat, r: int, m: int): int
    requires 0 < m
  {
    if e == 0 then MontForm(1, r, m) else MontMul(b, MontExp(b, e - 1, r, m), r, m)
  }

  /** A Montgomery product of images is the image of the product. */
  lemma MontMulOfForms(a: int, b: int, x: int, y: int, r: int, m: int)
    requires 0 < m && Coprime(r, m) && Cong(x, a * r, m) && Cong(y, b * r, m)
    ensures Cong(MontMul(x, y, r, m), (a * b) * r, m)
  {
    var i := Inverse(r, m);
    InverseIsInverse(r, m);
    CongMul(x, a * r, y, b * r, m);
    Shuffle(a, r, b, r);
    CongMul(x * y, (a * b) * (r * r), i, i, m);
    CongMul(r * i, 1, (a * b) * r, (a * b) * r, m);
    assert ((a * b) * (r * r)) * i == (r * i) * ((a * b) * r);
    CongMod((x * y) * i, m);
  }

  lemma {:induction false} MontExpIsForm(base: int, b: int, e: nat, r: int, m: int)
    requires 0 < m && Coprime(r, m) && Cong(b, base * r, m)
    ensures Cong(MontExp(b, e, r, m), Pow(base, e) * r, m)
  {
    if e == 0 {
      CongMod(1 * r, m);
    } else {
      MontExpIsForm(base, b, e - 1, r, m);
      MontMulOfForms(base, Pow(base, e - 1), b, MontExp(b, e - 1, r, m), r, m);
    }
  }

  /** Multiplying by a plain 1 leaves Montgomery form. */
  lemma MontLeave(x: int, y: int, r: int, m: int)
    requires 0 < m && Coprime(r, m) && Cong(x, y * r, m)
    ensures MontMul(x, 1, r, m) == y % m
  {
    var i := Inverse(r, m);
    InverseIsInverse(r, m);
    CongMul(x, y * r, i, i, m);
    CongMul(y, y, r * i, 1, m);
    assert (y * r) * i == y * (r * i);
  }

  /** Every power of two is a unit modulo an odd number. */
  lemma PowerOfTwoUnit(k: nat, m: int)
    requires 0 < m && m % 2 == 1
    ensures Coprime(Pow(2, k), m)
  {
    CongOfQuotient(2 * ((m + 1) / 2), 1, m, 1);
    CoprimeByInverse(2, (m + 1) / 2, m);
    CoprimePow(2, k, m);
  }

  /** ippSBModExp, for the radix of the modulus' word length. */
  method IppSbModExp(base: int, exp: nat, mod: int) returns (res: int)
    requires 0 < mod && mod % 2 == 1
    ensures res == ModPow(base, exp, mod)
    ensures 0 <= res < mod && Cong(res, Pow(base, exp), mod)
  {
    var modWords := (BitSize(mod) + 31) / 32;
    var r := Pow(2, 32 * modWords);
    PowerOfTwoUnit(32 * modWords, mod);
    var bform := MontForm(base, r, mod);
    CongMod(base * r, mod);
    res := MontExp(bform, exp, r, mod);
    MontExpIsForm(base, bform, exp, r, mod);
    MontLeave(res, Pow(base, exp), r, mod);
    res := MontMul(res, 1, r, mod);
  }

  // ---- chunks of eight lanes --------------------------------------------------------

  /** ippMBModExp: the eight-lane primitive computes each lane it was given. */
  method IppMbModExp(base: seq<int>, exp: seq<nat>, mod: seq<int>) returns (r: Result<seq<int>>)
    requires forall i :: 0 <= i < |mod| ==> 0 < mod[i] && mod[i] % 2 == 1
    ensures r.Ok? <==> |base| == |exp| == |mod| && |base| <= 8
    ensures r.Ok? ==> r.value == Pointwise(base, exp, mod) && |r.value| == |base|
    ensures r.Ok? ==> forall i :: 0 <= i < |base| ==>
      0 <= r.value[i] < mod[i] && Cong(r.value[i], Pow(base[i], exp[i]), mod[i])
  {
    if !(|base| == |exp| == |mod| && |base| <= CRYPTO_MB_SIZE) {
      return Error("ippMBModExp: input vector size error");
    }
    var res := new int[|base|];
    var i := 0;
    while i < |base|
      invariant 0 <= i <= |base|
      invariant forall j :: 0 <= j < i ==> res[j] == ModPow(base[j], exp[j], mod[j])
    {
      res[i] := ModPow(base[i], exp[i], mod[i]);
      i := i + 1;
    }
    PointwiseLanes(base, exp, mod);
    return Ok(res[..]);
  }

  /** ippMBModExpWrapper: chunks of eight, the last one possibly shorter. */
  method IppMbModExpWrapper(base: seq<int>, exp: seq<nat>, mod: seq<int>) returns (res: seq<int>)
    requires Batch(base, exp, mod)
    ensures res == Pointwise(base, exp, mod) && |res| == |base|
    ensures forall i :: 0 <= i < |base| ==>
      0 <= res[i] < mod[i] && Cong(res[i], Pow(base[i], exp[i]), mod[i])
  {
    PointwiseLanes(base, exp, mod);
    var size := |base|;
    var out := new int[size];
    var remainder := size % CRYPTO_MB_SIZE;
    var numChunk := (size + CRYPTO_MB_SIZE - 1) / CRYPTO_MB_SIZE;
    var i := 0;
    while i < numChunk
      invariant 0 <= i <= numChunk
      invariant forall j :: 0 <= j < size && j < i * CRYPTO_MB_SIZE ==> out[j] == ModPow(base[j], exp[j], mod[j])
    {
      var chunkSize := CRYPTO_MB_SIZE;
      if i == numChunk - 1 && remainder > 0 { chunkSize := remainder; }
      var offset := i * CRYPTO_MB_SIZE;
      assert offset + chunkSize <= size;
      Chunk(base, exp, mod, offset, chunkSize, out);
      i := i + 1;
    }
    return out[..];
  }

  /** One chunk: copy the lanes out, compute them, copy the results back in place. */
  method Chunk(base: seq<int>, exp: seq<nat>, mod: seq<int>, offset: nat, size: nat, out: array<int>)
    requires Batch(base, exp, mod) && size <= CRYPTO_MB_SIZE && offset + size <= |base| == out.Length
    modifies out
    ensures forall j :: 0 <= j < out.Length ==>
      out[j] == if offset <= j < offset + size then ModPow(base[j], exp[j], mod[j]) else old(out[j])
  {
    var tmp := IppMbModExp(base[offset..offset + size], exp[offset..offset + size], mod[offset..offset + size]);
    CopyInto(out, offset, tmp.value);
  }

  /** std::copy of a result vector to an offset. */
  method CopyInto(out: array<int>, offset: nat, values: seq<int>)
    requires offset + |values| <= out.Length
    modifies out
    ensures forall j :: 0 <= j < out.Length ==>
      out[j] == if offset <= j < offset + |values| then values[j - offset] else old(out[j])
  {
    var i := 0;
    while i < |values|
      invariant 0 <= i <= |values|
      invariant forall j :: 0 <= j < out.Length ==>
        out[j] == if offset <= j < offset + i then values[j - offset] else old(out[j])
    {
      out[offset + i] := values[i];
      i := i + 1;
    }
  }

  /** ippModExp: one value alone goes through Montgomery, several through either wrapper. */
  method IppModExp(base: seq<int>, exp: seq<nat>, mod: seq<int>, multiBuffer: bool) returns (res: seq<int>)
    requires Batch(base, exp, mod)
    ensures res == Pointwise(base, exp, mod) && |res| == |base|
    ensures forall i :: 0 <= i < |base| ==>
      0 <= res[i] < mod[i] && Cong(res[i], Pow(base[i], exp[i]), mod[i])
  {
    PointwiseLanes(base, exp, mod);
    hide Cong, Pow;
    if |base| == 1 || !multiBuffer {
      var out := new int[|base|];
      var i := 0;
      while i < |base|
        invariant 0 <= i <= |base|
        invariant forall j :: 0 <= j < i ==> out[j] == ModPow(base[j], exp[j], mod[j])
      {
        out[i] := IppSbModExp(base[i], exp[i], mod[i]);
        i := i + 1;
      }
      return out[..];
    }
    res := IppMbModExpWrapper(base, exp, mod);
  }

  // ---- accelerator slices -------------------------------------------------------------

  /** Octets the accelerator exchange uses, fixed by the first modulus. */
  function OctetWords(mod: seq<int>): (w: nat)
    requires |mod| > 0 && 0 < mod[0]
  {
    (BitSize(mod[0]) + 31) / 32
  }

  /** They are the fewest 32-bit words that hold the first modulus. */
  lemma OctetWordsFewest(mod: seq<int>)
    requires |mod| > 0 && 0 < mod[0]
    ensures 1 <= OctetWords(mod)
    ensures Pow(2, 32 * (OctetWords(mod) - 1)) <= mod[0] < Pow(2, 32 * OctetWords(mod))
  {
    hide Pow, BitSize;
    var w, bits := OctetWords(mod), BitSize(mod[0]);
    BitSizeBounds(mod[0], 0);
    PowMonotone(2, 32 * (w - 1), bits - 1);
    PowMonotone(2, bits, 32 * w);
  }

  lemma PowMonotone(b: nat, i: nat, j: nat)
    requires 0 < b && i <= j
    ensures Pow(b, i) <= Pow(b, j)
  {
    PowAdd(b, i, j - i);
    PowPositive(b, i);
    PowPositive(b, j - i);
    MulMonotone(Pow(b, i), 1, Pow(b, j - i));
  }

  /** Every operand fits the octet strings that toBin fills. */
  predicate FitsOctets(base: seq<int>, exp: seq<nat>, mod: seq<int>) {
    && |base| > 0 && Batch(base, exp, mod)
    && forall i :: 0 <= i < |base| ==>
         0 <= base[i] < Pow(256, 4 * OctetWords(mod)) && exp[i] < Pow(256, 4 * OctetWords(mod))
         && mod[i] < Pow(256, 4 * OctetWords(mod))
  }

  /** The accelerator on octet strings. */
  function Device(b: seq<Octet>, e: seq<Octet>, m: seq<Octet>): seq<Octet>
    requires 0 < Os2ip(m)
  {
    I2osp(ModPow(Os2ip(b), Os2ip(e), Os2ip(m)), |m|)
  }

  /** One lane as the accelerator route returns it. */
  function QatLane(b: int, e: nat, m: int, words: nat, chunk: nat): int
    requires 0 < m && 0 < chunk
  {
    OctetTrip(ModPow(b, e, m), words, chunk)
  }

  /** The first n lanes of the accelerator route. */
  function QatLanes(base: seq<int>, exp: seq<nat>, mod: seq<int>, words: nat, chunk: nat, n: nat): (r: seq<int>)
    requires Batch(base, exp, mod) && 0 < chunk && n <= |base|
    ensures |r| == n
  {
    if n == 0 then []
    else QatLanes(base, exp, mod, words, chunk, n - 1)
         + [QatLane(base[n - 1], exp[n - 1], mod[n - 1], words, chunk)]
  }

  lemma {:induction false} QatLaneAt(base: seq<int>, exp: seq<nat>, mod: seq<int>,
                                      words: nat, chunk: nat, n: nat, k: nat)
    requires Batch(base, exp, mod) && 0 < chunk && k < n <= |base|
    ensures QatLanes(base, exp, mod, words, chunk, n)[k] == QatLane(base[k], exp[k], mod[k], words, chunk)
  {
    if k < n - 1 {
      QatLaneAt(base, exp, mod, words, chunk, n - 1, k);
    }
  }

  /** What fromBin reads from an answer of the accelerator. */
  function ReadAnswer(answer: seq<Octet>, chunk: nat): nat
    requires 0 < chunk
  {
    LowOctets(Os2ip(answer), 4 * StoredWords(answer, chunk))
  }

  /** The octets the accelerator writes for one request. */
  function DeviceAnswer(b: int, e: nat, m: int, words: nat): seq<Octet>
    requires 0 <= b && 0 < m < Pow(256, 4 * words)
  {
    I2ospInverse(m, 4 * words);
    Device(I2osp(b, 4 * words), I2osp(e, 4 * words), I2osp(m, 4 * words))
  }

  lemma AnswerLane(b: nat, e: nat, m: nat, words: nat, chunk: nat)
    requires 0 < m && 0 < chunk
    requires b < Pow(256, 4 * words) && e < Pow(256, 4 * words) && m < Pow(256, 4 * words)
    ensures ReadAnswer(DeviceAnswer(b, e, m, words), chunk) == QatLane(b, e, m, words, chunk)
  {
    I2ospInverse(b, 4 * words);
    I2ospInverse(e, 4 * words);
    I2ospInverse(m, 4 * words);
  }

  /** The answers to the first n requests of a slice. */
  function Answers(base: seq<int>, exp: seq<nat>, mod: seq<int>, offset: nat, n: nat): (r: seq<seq<Octet>>)
    requires FitsOctets(base, exp, mod) && offset + n <= |base|
    ensures |r| == n
  {
    if n == 0 then []
    else Answers(base, exp, mod, offset, n - 1) + [AnswerOf(base, exp, mod, offset + n - 1)]
  }

  function AnswerOf(base: seq<int>, exp: seq<nat>, mod: seq<int>, k: nat): seq<Octet>
    requires FitsOctets(base, exp, mod) && k < |base|
  {
    DeviceAnswer(base[k], exp[k], mod[k], OctetWords(mod))
  }

  lemma {:induction false} AnswerAt(base: seq<int>, exp: seq<nat>, mod: seq<int>,
                                     offset: nat, n: nat, k: nat, chunk: nat)
    requires FitsOctets(base, exp, mod) && offset + n <= |base| && k < n && 0 < chunk
    ensures ReadAnswer(Answers(base, exp, mod, offset, n)[k], chunk)
         == QatLanes(base, exp, mod, OctetWords(mod), chunk, |base|)[offset + k]
  {
    var i := offset + n - 1;
    if k < n - 1 {
      AnswerAt(base, exp, mod, offset, n - 1, k, chunk);
    } else {
      QatLaneAt(base, exp, mod, OctetWords(mod), chunk, |base|, i);
      AnswerLane(base[i], exp[i], mod[i], OctetWords(mod), chunk);
    }
  }

  /** heQatBnModExp_MT: slices of at most batchSize requests, each collected before the next. */
  method HeQatBnModExp(base: seq<int>, exp: seq<nat>, mod: seq<int>, batchSize: nat, chunk: nat)
    returns (remainder: seq<int>)
    requires FitsOctets(base, exp, mod) && 0 < batchSize && (chunk == 1 || chunk == 2)
    ensures remainder == QatLanes(base, exp, mod, OctetWords(mod), chunk, |base|)
  {
    var workSize := |base|;
    var nSlices := SliceCount(workSize, batchSize);
    var out := new int[workSize];
    ghost var lanes := QatLanes(base, exp, mod, OctetWords(mod), chunk, |base|);
    hide QatLanes, OctetWords, FitsOctets, Batch, SliceCount, SliceSize, SliceStart;
    SliceEnds(workSize, batchSize);
    var j := 0;
    while j < nSlices
      invariant 0 <= j <= nSlices
      invariant forall k :: 0 <= k < workSize && k < SliceStart(batchSize, j) ==> out[k] == lanes[k]
    {
      SliceInside(workSize, batchSize, j);
      Slice(base, exp, mod, chunk, SliceStart(batchSize, j), SliceSize(workSize, batchSize, j), out);
      j := j + 1;
    }
    return out[..];
  }

  /** nslices. */
  function SliceCount(size: nat, batch: nat): nat
    requires 0 < batch
  {
    (size + batch - 1) / batch
  }

  /** parallel_quantity: full slices, except that the last one holds the residue if there is one. */
  function SliceSize(size: nat, batch: nat, j: nat): nat
    requires 0 < batch
  {
    if j == SliceCount(size, batch) - 1 && size % batch > 0 then size % batch else batch
  }

  /** Where slice j starts. */
  function SliceStart(batch: nat, j: nat): nat {
    MulMonotone(batch, 0, j);
    j * batch
  }

  /** The slices begin at the front and reach the end. */
  lemma SliceEnds(size: nat, batch: nat)
    requires 0 < batch
    ensures SliceStart(batch, 0) == 0
    ensures SliceStart(batch, SliceCount(size, batch)) >= size
  {
    RoundUp(size, batch);
  }

  /** The slices tile the vector, and none asks for more than a buffer holds. */
  lemma SliceInside(size: nat, batch: nat, j: nat)
    requires 0 < batch && j < SliceCount(size, batch)
    ensures 1 <= SliceSize(size, batch, j) <= batch
    ensures SliceStart(batch, j) + SliceSize(size, batch, j) <= size
    ensures SliceStart(batch, j + 1) == SliceStart(batch, j) + batch
    ensures j + 1 < SliceCount(size, batch) ==> SliceSize(size, batch, j) == batch
    ensures j + 1 == SliceCount(size, batch) ==> SliceStart(batch, j) + SliceSize(size, batch, j) == size
  {
    var n := SliceCount(size, batch);
    var q, r := size / batch, size % batch;
    assert size == batch * q + r;
    if r > 0 {
      DivModUnique(size + batch - 1, q + 1, r - 1, batch);
    } else {
      DivModUnique(size + batch - 1, q, batch - 1, batch);
    }
    SlicePosition(batch, j, n);
    assert batch * (q + 1) == batch * q + batch;
  }

  /** The slices modExp asks for are within the 1024 requests that one buffer holds. */
  lemma HybridSlicesFit(size: nat, j: nat)
    requires j < SliceCount(size, QAT_BATCH_SIZE)
    ensures 1 <= SliceSize(size, QAT_BATCH_SIZE, j) <= 1024
  {
    SliceInside(size, QAT_BATCH_SIZE, j);
  }

  lemma SlicePosition(batch: nat, j: nat, n: nat)
    requires j < n
    ensures 0 <= j * batch && (j + 1) * batch == j * batch + batch
    ensures j + 1 < n ==> j * batch + batch <= batch * n - batch
    ensures j + 1 == n ==> j * batch == batch * n - batch
  {
    MulMonotone(batch, 0, j);
    assert j * batch == batch * j && batch * (n - 1) == batch * n - batch;
    if j + 1 < n {
      MulMonotone(batch, j + 1, n - 1);
      assert batch * (j + 1) == batch * j + batch;
    }
  }

  /** One slice: submit every request, wait for the answers, read the results. */
  method Slice(base: seq<int>, exp: seq<nat>, mod: seq<int>, chunk: nat, offset: nat, quantity: nat, out: array<int>)
    requires FitsOctets(base, exp, mod) && (chunk == 1 || chunk == 2)
    requires offset + quantity <= |base| == out.Length
    modifies out
    ensures forall k :: 0 <= k < |base| ==>
      out[k] == if offset <= k < offset + quantity
                then QatLanes(base, exp, mod, OctetWords(mod), chunk, |base|)[k] else old(out[k])
  {
    var answers := SubmitSlice(base, exp, mod, offset, quantity);
    ghost var lanes := QatLanes(base, exp, mod, OctetWords(mod), chunk, |base|);
    var i := 0;
    while i < quantity
      invariant 0 <= i <= quantity
      invariant forall k :: 0 <= k < |base| ==>
        out[k] == if offset <= k < offset + i then lanes[k] else old(out[k])
    {
      AnswerAt(base, exp, mod, offset, quantity, i, chunk);
      out[offset + i] := ReadAnswer(answers[i], chunk);
      i := i + 1;
    }
  }

  method SubmitSlice(base: seq<int>, exp: seq<nat>, mod: seq<int>, offset: nat, quantity: nat)
    returns (answers: seq<seq<Octet>>)
    requires FitsOctets(base, exp, mod) && offset + quantity <= |base|
    ensures answers == Answers(base, exp, mod, offset, quantity)
  {
    hide AnswerOf, FitsOctets;
    answers := [];
    var i := 0;
    while i < quantity
      invariant 0 <= i <= quantity && answers == Answers(base, exp, mod, offset, i)
    {
      answers := answers + [AnswerOf(base, exp, mod, offset + i)];
      i := i + 1;
    }
  }

  // ---- the hybrid split ---------------------------------------------------------------

  /** The result of a split at k: accelerator lanes, then CPU lanes. */
  function SplitLanes(base: seq<int>, exp: seq<nat>, mod: seq<int>, k: nat, chunk: nat): (r: seq<int>)
    requires |base| > 0 && Batch(base, exp, mod) && k <= |base| && 0 < chunk
    ensures |r| == |base|
  {
    QatLanes(base[..k], exp[..k], mod[..k], OctetWords(mod), chunk, k) + Pointwise(base[k..], exp[k..], mod[k..])
  }

  /** Lane i of a split is read back from the accelerator below k, and the residue of the power from there on. */
  lemma SplitLanesAt(base: seq<int>, exp: seq<nat>, mod: seq<int>, k: nat, chunk: nat)
    requires |base| > 0 && Batch(base, exp, mod) && k <= |base| && 0 < chunk
    ensures forall i :: 0 <= i < k ==> 0 < mod[i] && SplitLanes(base, exp, mod, k, chunk)[i]
                                       == OctetTrip(ModPow(base[i], exp[i], mod[i]), OctetWords(mod), chunk)
    ensures forall i :: k <= i < |base| ==>
      0 < mod[i] && 0 <= SplitLanes(base, exp, mod, k, chunk)[i] < mod[i]
      && Cong(SplitLanes(base, exp, mod, k, chunk)[i], Pow(base[i], exp[i]), mod[i])
  {
    hide Pow, Cong, OctetTrip, ModPow, OctetWords;
    PointwiseLanes(base[k..], exp[k..], mod[k..]);
    forall i | 0 <= i < k
      ensures SplitLanes(base, exp, mod, k, chunk)[i]
           == OctetTrip(ModPow(base[i], exp[i], mod[i]), OctetWords(mod), chunk)
    {
      QatLaneAt(base[..k], exp[..k], mod[..k], OctetWords(mod), chunk, k, i);
    }
    hide Pointwise, QatLanes;
    forall i | k <= i < |base|
      ensures 0 <= SplitLanes(base, exp, mod, k, chunk)[i] < mod[i]
      ensures Cong(SplitLanes(base, exp, mod, k, chunk)[i], Pow(base[i], exp[i]), mod[i])
    {
      assert base[k..][i - k] == base[i] && exp[k..][i - k] == exp[i] && mod[k..][i - k] == mod[i];
    }
  }

  /** modExp: the first k values go to the accelerator, the others to the CPU. */
  method HybridModExp(base: seq<int>, exp: seq<nat>, mod: seq<int>, k: nat, multiBuffer: bool, chunk: nat)
    returns (res: seq<int>)
    requires k <= |base| && Batch(base, exp, mod) && (chunk == 1 || chunk == 2)
    requires |base| > 0 && (k > 0 ==> FitsOctets(base[..k], exp[..k], mod[..k]))
    ensures res == SplitLanes(base, exp, mod, k, chunk) && |res| == |base|
  {
    hide FitsOctets, QatLanes, Pointwise, BitSize, ModPow, Pow, Cong, OctetTrip;
    var size := |base|;
    if k == size {
      assert base[..k] == base && exp[..k] == exp && mod[..k] == mod;
      assert Pointwise(base[k..], exp[k..], mod[k..]) == [];
      res := HeQatBnModExp(base, exp, mod, QAT_BATCH_SIZE, chunk);
    } else if k == 0 {
      assert base[k..] == base && exp[k..] == exp && mod[k..] == mod;
      assert QatLanes(base[..k], exp[..k], mod[..k], OctetWords(mod), chunk, k) == [];
      res := IppModExp(base, exp, mod, multiBuffer);
    } else {
      var out := new int[size];
      var qat := HeQatBnModExp(base[..k], exp[..k], mod[..k], QAT_BATCH_SIZE, chunk);
      CopyInto(out, 0, qat);
      var ipp := IppModExp(base[k..], exp[k..], mod[k..], multiBuffer);
      CopyInto(out, k, ipp);
      assert out[..] == qat + ipp;
      res := out[..];
    }
  }

  /** The value of one lane fits the words that reading it back keeps. */
  predicate ReadsBack(v: nat, words: nat, chunk: nat)
    requires 0 < chunk
  {
    v < Pow(2, 32 * KeptWords(v, words, chunk))
  }

  lemma SplitLane(base: seq<int>, exp: seq<nat>, mod: seq<int>, k: nat, chunk: nat, i: nat)
    requires i < k <= |base| && Batch(base, exp, mod) && (chunk == 1 || chunk == 2)
    requires FitsOctets(base[..k], exp[..k], mod[..k])
    ensures SplitLanes(base, exp, mod, k, chunk)[i] == Pointwise(base, exp, mod)[i]
       <==> ReadsBack(ModPow(base[i], exp[i], mod[i]), OctetWords(mod), chunk)
  {
    LaneFits(base, exp, mod, k, i);
    hide FitsOctets, ReadsBack, ModPow, OctetWords;
    QatLaneAt(base[..k], exp[..k], mod[..k], OctetWords(mod), chunk, k, i);
    QatLaneReadsBack(base[i], exp[i], mod[i], OctetWords(mod), chunk);
  }

  lemma QatLaneReadsBack(b: int, e: nat, m: int, words: nat, chunk: nat)
    requires 0 < m && 0 < chunk && ModPow(b, e, m) < Pow(256, 4 * words)
    ensures QatLane(b, e, m, words, chunk) == ModPow(b, e, m) <==> ReadsBack(ModPow(b, e, m), words, chunk)
  {
    OctetRoundTrip(ModPow(b, e, m), words, chunk);
  }

  lemma SplitRest(base: seq<int>, exp: seq<nat>, mod: seq<int>, k: nat, chunk: nat, i: nat)
    requires k <= i < |base| && Batch(base, exp, mod) && 0 < chunk
    ensures SplitLanes(base, exp, mod, k, chunk)[i] == Pointwise(base, exp, mod)[i]
  {
  }

  /** A split is the pointwise map exactly when every accelerator lane reads back. */
  lemma SplitIsPointwise(base: seq<int>, exp: seq<nat>, mod: seq<int>, k: nat, chunk: nat)
    requires k <= |base| && Batch(base, exp, mod) && (chunk == 1 || chunk == 2)
    requires |base| > 0 && (k > 0 ==> FitsOctets(base[..k], exp[..k], mod[..k]))
    ensures SplitLanes(base, exp, mod, k, chunk) == Pointwise(base, exp, mod) <==>
            forall i :: 0 <= i < k ==> ReadsBack(ModPow(base[i], exp[i], mod[i]), OctetWords(mod), chunk)
  {
    var split, whole := SplitLanes(base, exp, mod, k, chunk), Pointwise(base, exp, mod);
    hide SplitLanes, Pointwise, FitsOctets, ReadsBack, ModPow, OctetWords;
    forall i | 0 <= i < k
      ensures split[i] == whole[i] <==> ReadsBack(ModPow(base[i], exp[i], mod[i]), OctetWords(mod), chunk)
    {
      SplitLane(base, exp, mod, k, chunk, i);
    }
    forall i | k <= i < |base| ensures split[i] == whole[i] {
      SplitRest(base, exp, mod, k, chunk, i);
    }
  }

  lemma LaneFits(base: seq<int>, exp: seq<nat>, mod: seq<int>, k: nat, i: nat)
    requires i < k <= |base| && Batch(base, exp, mod) && FitsOctets(base[..k], exp[..k], mod[..k])
    ensures ModPow(base[i], exp[i], mod[i]) < Pow(256, 4 * OctetWords(mod))
  {
    assert base[..k][i] == base[i] && mod[..k][i] == mod[i] && mod[..k][0] == mod[0];
  }

  /** In particular whenever no accelerator result ends in a zero word. */
  lemma SplitIsPointwiseLowWords(base: seq<int>, exp: seq<nat>, mod: seq<int>, k: nat, chunk: nat)
    requires k <= |base| && Batch(base, exp, mod) && (chunk == 1 || chunk == 2)
    requires |base| > 0 && (k > 0 ==> FitsOctets(base[..k], exp[..k], mod[..k]))
    requires forall i :: 0 <= i < k ==> ModPow(base[i], exp[i], mod[i]) % WORD_BASE != 0
    ensures SplitLanes(base, exp, mod, k, chunk) == Pointwise(base, exp, mod)
  {
    forall i | 0 <= i < k ensures ReadsBack(ModPow(base[i], exp[i], mod[i]), OctetWords(mod), chunk) {
      LaneFits(base, exp, mod, k, i);
      BitSizeBounds(mod[0], 0);
      var v := ModPow(base[i], exp[i], mod[i]);
      OctetRoundTripLowWord(v, OctetWords(mod), chunk);
      OctetRoundTrip(v, OctetWords(mod), chunk);
    }
    SplitIsPointwise(base, exp, mod, k, chunk);
  }

  /** One lane that loses its value: 2^64 modulo 2^127 + 1 comes back from the accelerator as zero. */
  lemma SplitLoses(chunk: nat)
    requires chunk == 1 || chunk == 2
    ensures var base, exp, mod := [0x1_0000_0000_0000_0000], [1], [0x8000_0000_0000_0000_0000_0000_0000_0001];
      FitsOctets(base, exp, mod) && SplitLanes(base, exp, mod, 1, chunk) != Pointwise(base, exp, mod)
  {
    var b, m := 0x1_0000_0000_0000_0000, 0x8000_0000_0000_0000_0000_0000_0000_0001;
    LosingLane(b, m, chunk);
    var base, exp, mod := [b], [1], [m];
    assert base[..1] == base && exp[..1] == exp && mod[..1] == mod;
    hide QatLane, BitSize, ModPow;
    assert FitsOctets(base, exp, mod);
    QatLaneAt(base, exp, mod, 4, chunk, 1, 0);
    assert SplitLanes(base, exp, mod, 1, chunk)[0] == 0;
    assert Pointwise(base, exp, mod)[0] == b;
  }

  lemma LosingLane(b: int, m: int, chunk: nat)
    requires b == 0x1_0000_0000_0000_0000 && m == 0x8000_0000_0000_0000_0000_0000_0000_0001
    requires chunk == 1 || chunk == 2
    ensures (BitSize(m) + 31) / 32 == 4 && m < Pow(256, 16) && m % 2 == 1
    ensures ModPow(b, 1, m) == b && QatLane(b, 1, m, 4, chunk) == 0
  {
    hide Pow, BitSize, OctetTrip, ModPow;
    BigPowers();
    BitSizeBounds(m, 128);
    SmallPower(b, m);
    OctetTripLoses(chunk);
  }

  lemma SmallPower(b: nat, m: int)
    requires b < m
    ensures ModPow(b, 1, m) == b
  {
    assert Pow(b, 1) == b;
    DivModUnique(b, 0, b, m);
  }

  lemma BigPowers()
    ensures Pow(2, 127) == 0x8000_0000_0000_0000_0000_0000_0000_0000
    ensures Pow(2, 128) == Pow(256, 16) == 0x1_0000_0000_0000_0000_0000_0000_0000_0000
  {
    PowTwo();
    PowAdd(2, 32, 32);
    PowAdd(2, 64, 32);
    PowAdd(2, 96, 31);
    PowAdd(2, 1, 127);
    PowWord();
    PowAdd(256, 4, 4);
    PowAdd(256, 8, 8);
  }
}
