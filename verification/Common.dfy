/** Small definitions used by several models. */
module Common {

  type Byte = b: int | 0 <= b < 256

  function Min(a: nat, b: nat): nat {
    if a < b then a else b
  }

  const WORD: nat := 0x1_0000_0000_0000_0000

  /** Addition to a 64-bit counter. */
  function Add64(a: nat, b: nat): nat {
    (a + b) % WORD
  }

  /** Names how often a counter has wrapped. */
  ghost predicate Turns(k: int) {
    0 <= k
  }

  /** A 64-bit counter stands for the true count `n`: it holds `n` modulo 2^64. */
  ghost predicate Stands(counter: nat, n: nat) {
    counter < WORD && exists k {:trigger Turns(k)} :: Turns(k) && n == counter + k * WORD
  }

  lemma StandsFor(counter: nat, n: nat)
    ensures Stands(counter, n) <==> counter == n % WORD
  {
    assert Turns(n / WORD);
  }

  lemma StandsAdd(counter: nat, n: nat, b: nat)
    requires Stands(counter, n)
    ensures Stands(Add64(counter, b), n + b)
  {
    var k :| Turns(k) && n == counter + k * WORD;
    assert Turns(k + (counter + b) / WORD);
  }
}
