/** Fletcher-64 over whole blocks of little-endian words. */
module Fletcher64 {
  import opened Bytes

  const FBLOCK: nat := 0x1000
  const MODULUS: nat := 0xFFFF_FFFF

  /** All words of the blocks in order. */
  function AllWords(blocks: seq<seq<byte>>): seq<nat>
    requires forall b :: 0 <= b < |blocks| ==> |blocks[b]| == FBLOCK
  {
    if |blocks| == 0 then [] else AllWords(blocks[..|blocks| - 1]) + BlockWords(blocks[|blocks| - 1])
  }

  function BlockWords(block: seq<byte>): (ws: seq<nat>)
    requires |block| == FBLOCK
    ensures |ws| == FBLOCK / 4
  {
    seq(FBLOCK / 4, i requires 0 <= i < FBLOCK / 4 => Get32(block, 4 * i))
  }

  function Sum(ws: seq<nat>): nat {
    if |ws| == 0 then 0 else Sum(ws[..|ws| - 1]) + ws[|ws| - 1]
  }

  /** The sum of (n - i) * w_i over the n words. */
  function WeightedSum(ws: seq<nat>): nat {
    WeightedFrom(ws, |ws|)
  }

  function WeightedFrom(ws: seq<nat>, top: nat): nat
    requires |ws| <= top
  {
    if |ws| == 0 then 0 else WeightedFrom(ws[..|ws| - 1], top) + (top - (|ws| - 1)) * ws[|ws| - 1]
  }

  lemma {:induction false} WeightedNext(ws: seq<nat>, top: nat)
    requires |ws| <= top
    ensures WeightedFrom(ws, top + 1) == WeightedFrom(ws, top) + Sum(ws)
  {
    if |ws| > 0 {
      var k := |ws| - 1;
      WeightedNext(ws[..k], top);
      Distribute(top - k, ws[k]);
    }
  }

  lemma Distribute(a: int, w: int)
    ensures (a + 1) * w == a * w + w
  {
  }

  /** One more word adds the running sum to the weighted sum. */
  lemma WeightedSnoc(ws: seq<nat>, w: nat)
    ensures Sum(ws + [w]) == Sum(ws) + w
    ensures WeightedSum(ws + [w]) == WeightedSum(ws) + Sum(ws + [w])
  {
    assert (ws + [w])[..|ws|] == ws;
    WeightedNext(ws, |ws|);
  }

  /** `ws` are the words summed so far. */
  ghost predicate Sums(ws: seq<nat>, sum1: nat, sum2: nat) {
    sum1 == Sum(ws) % MODULUS && sum2 == WeightedSum(ws) % MODULUS
  }

  lemma SumsNext(ws: seq<nat>, sum1: nat, sum2: nat, word: nat)
    requires Sums(ws, sum1, sum2)
    ensures Sums(ws + [word], (sum1 + word) % MODULUS, (sum2 + (sum1 + word) % MODULUS) % MODULUS)
  {
    WeightedSnoc(ws, word);
    hide Sum, WeightedSum;
    AddMod(Sum(ws), word);
    AddMod(WeightedSum(ws), Sum(ws + [word]));
  }

  /** Both sums reduced and packed, the weighted one in the high half. */
  function Checksum(blocks: seq<seq<byte>>): nat
    requires forall b :: 0 <= b < |blocks| ==> |blocks[b]| == FBLOCK
  {
    WeightedSum(AllWords(blocks)) % MODULUS * TWO_32 + Sum(AllWords(blocks)) % MODULUS
  }

  method Fletcher(blocks: seq<seq<byte>>) returns (r: nat)
    requires forall b :: 0 <= b < |blocks| ==> |blocks[b]| == FBLOCK
    ensures r == Checksum(blocks) < TWO_32 * TWO_32
  {
    var sum1: nat, sum2: nat := 0, 0;
    for b := 0 to |blocks|
      invariant Sums(AllWords(blocks[..b]), sum1, sum2)
    {
      sum1, sum2 := AddBlock(AllWords(blocks[..b]), blocks[b], sum1, sum2);
      assert blocks[..b + 1][..b] == blocks[..b];
    }
    assert blocks[..|blocks|] == blocks;
    // Shifting left by 32 and or-ing a value below 2^32 is this sum.
    r := sum2 * TWO_32 + sum1;
  }

  /** The inner loop: one block after the words already `done`. */
  method AddBlock(ghost done: seq<nat>, block: seq<byte>, s1: nat, s2: nat) returns (sum1: nat, sum2: nat)
    requires |block| == FBLOCK && Sums(done, s1, s2)
    ensures Sums(done + BlockWords(block), sum1, sum2)
  {
    sum1, sum2 := s1, s2;
    ghost var words: seq<nat> := BlockWords(block);
    assert done + words[..0] == done;
    hide Sums;
    for i := 0 to FBLOCK / 4
      invariant Sums(done + words[..i], sum1, sum2)
    {
      var word := Get32(block, 4 * i);
      assert done + words[..i + 1] == (done + words[..i]) + [word];
      SumsNext(done + words[..i], sum1, sum2, word);
      sum1 := (sum1 + word) % MODULUS;
      sum2 := (sum2 + sum1) % MODULUS;
    }
    assert words[..FBLOCK / 4] == words;
  }

  lemma AddMod(a: nat, b: nat)
    ensures (a % MODULUS + b) % MODULUS == (a + b) % MODULUS
    ensures (a % MODULUS + b % MODULUS) % MODULUS == (a + b) % MODULUS
  {
  }
}
