/**
 * The bucket function of the response cache (src/components/cache.c).
 *
 * A URL is the sequence of ints that the C characters promote to.  The sign of `char` is
 * left open: every result holds for any int code, so for both choices a compiler may make.
 */
module CacheHash {
  type Url = seq<int>

  const HASH_TABLE_SIZE: nat := 1024
  const HASH_SEED: nat := 5381
  // One more than the largest C `unsigned int`.
  const WORD: nat := 0x1_0000_0000

  function Power33(n: nat): nat {
    if n == 0 then 1 else 33 * Power33(n - 1)
  }

  // sum of url[i] * 33^(|url|-1-i)
  function WeightedSum(url: Url): int {
    if url == [] then 0 else url[0] * Power33(|url| - 1) + WeightedSum(url[1..])
  }

  // The exact hash, over unbounded integers.
  function Polynomial(url: Url): int {
    HASH_SEED * Power33(|url|) + WeightedSum(url)
  }

  function Hash(url: Url): (bucket: nat)
    ensures bucket < HASH_TABLE_SIZE
  {
    Polynomial(url) % HASH_TABLE_SIZE
  }

  // One character more turns a sum S into 33 * S + c.
  lemma {:induction false} WeightedSumSnoc(url: Url, c: int)
    ensures WeightedSum(url + [c]) == 33 * WeightedSum(url) + c
  {
    if url == [] {
      assert Power33(0) == 1;
      assert WeightedSum([c]) == c * Power33(0) + WeightedSum([]);
    } else {
      WeightedSumSnoc(url[1..], c);
      assert (url + [c])[1..] == url[1..] + [c];
      calc {
        WeightedSum(url + [c]);
        url[0] * Power33(|url|) + WeightedSum(url[1..] + [c]);
        url[0] * (33 * Power33(|url| - 1)) + 33 * WeightedSum(url[1..]) + c;
        33 * (url[0] * Power33(|url| - 1)) + 33 * WeightedSum(url[1..]) + c;
      }
    }
  }

  lemma PolynomialSnoc(url: Url, c: int)
    ensures Polynomial(url + [c]) == 33 * Polynomial(url) + c
  {
    WeightedSumSnoc(url, c);
  }

  // The shift, the two additions and the conversion of c wrap at each step.
  function WrapStep(hash: nat, c: int): (h: nat)
    ensures h < WORD
  {
    ((hash * 32 % WORD + hash) % WORD + c % WORD) % WORD
  }

  lemma WrapStepIsExactModuloWord(p: int, c: int)
    ensures WrapStep(p % WORD, c) == (33 * p + c) % WORD
  {
    var h := p % WORD;
    var q := p / WORD;
    assert p == WORD * q + h;
    var a := h * 32 / WORD;
    var b := (h * 32 % WORD + h) / WORD;
    var d := c / WORD;
    assert h * 32 % WORD == h * 32 - WORD * a;
    assert (h * 32 % WORD + h) % WORD == 33 * h - WORD * (a + b);
    assert c % WORD == c - WORD * d;
    ModuloShift(33 * h + c, -(a + b + d));
    ModuloShift(33 * h + c, 33 * q);
  }

  lemma ModuloShift(x: int, k: int)
    ensures (x + WORD * k) % WORD == x % WORD
  {
    assert x == WORD * (x / WORD) + x % WORD;
    var y := x + WORD * k;
    assert y == WORD * (y / WORD) + y % WORD;
    assert WORD * (y / WORD - x / WORD - k) == x % WORD - y % WORD;
  }

  // The loop of cache_hash.  Wrap-around never shows: 1024 divides 2^32.
  method CacheHash(url: Url) returns (bucket: nat)
    ensures bucket == Hash(url)
  {
    var hash := HASH_SEED;
    var i := 0;
    assert url[..0] == [];
    while i < |url|
      invariant 0 <= i <= |url|
      invariant hash == Polynomial(url[..i]) % WORD
    {
      var c := url[i];
      PolynomialSnoc(url[..i], c);
      assert url[..i + 1] == url[..i] + [c];
      WrapStepIsExactModuloWord(Polynomial(url[..i]), c);
      hash := ((hash * 32 % WORD + hash) % WORD + c % WORD) % WORD;
      i := i + 1;
    }
    assert url[..i] == url;
    bucket := hash % HASH_TABLE_SIZE;
    BucketIgnoresWrap(Polynomial(url));
  }

  // The hash from the left: 5381 for no character, then 33 times what there is plus the next.
  lemma HashFromTheLeft(url: Url, c: int)
    ensures Hash([]) == 5381 % 1024
    ensures Hash(url + [c]) == (33 * Hash(url) + c) % 1024
  {
    PolynomialSnoc(url, c);
    var p := Polynomial(url);
    assert p == 1024 * (p / 1024) + p % 1024;
    assert 33 * p + c == (33 * (p % 1024) + c) + 1024 * (33 * (p / 1024));
    ModuloShiftTable(33 * (p % 1024) + c, 33 * (p / 1024));
  }

  lemma ModuloShiftTable(x: int, k: int)
    ensures (x + 1024 * k) % 1024 == x % 1024
  {
    var y := x + 1024 * k;
    assert x == 1024 * (x / 1024) + x % 1024 && y == 1024 * (y / 1024) + y % 1024;
    assert 1024 * (y / 1024 - x / 1024 - k) == x % 1024 - y % 1024;
  }

  lemma BucketIgnoresWrap(p: int)
    ensures p % WORD % HASH_TABLE_SIZE == p % HASH_TABLE_SIZE
  {
    assert p == WORD * (p / WORD) + p % WORD;
    assert WORD == HASH_TABLE_SIZE * 4194304;
  }
}
