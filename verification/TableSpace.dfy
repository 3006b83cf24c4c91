/**
 How much room inflate_table takes for the two-level decoding table of a code, and the
 fixed budget it is checked against.
 */
module TableSpace {
  import opened Bits
  import opened Canonical

  const ENOUGH_LENS: nat := 852
  const ENOUGH_DISTS: nat := 592

  /** The symbols of length b in symbol order, among the first n. */
  function SymsOfLen(lens: seq<nat>, b: nat, n: nat): (r: seq<nat>)
    requires n <= |lens|
    ensures forall i :: 0 <= i < |r| ==> r[i] < n && lens[r[i]] == b
    ensures |r| == Count(lens[..n], b)
  {
    if n == 0 then []
    else
      assert lens[..n][..n - 1] == lens[..n - 1];
      SymsOfLen(lens, b, n - 1) + (if lens[n - 1] == b then [n - 1] else [])
  }

  /** The symbols with codes of length 1..b, by length and then by symbol: work[] after sorting. */
  function SortedSyms(lens: seq<nat>, b: nat): (r: seq<nat>)
    ensures forall i :: 0 <= i < |r| ==> r[i] < |lens| && 1 <= lens[r[i]] <= b
  {
    if b == 0 then [] else SortedSyms(lens, b - 1) + SymsOfLen(lens, b, |lens|)
  }

  /** The lengths of the given symbols. */
  function LensOf(lens: seq<nat>, syms: seq<nat>): (r: seq<nat>)
    requires forall i :: 0 <= i < |syms| ==> syms[i] < |lens|
    ensures |r| == |syms|
    ensures forall i :: 0 <= i < |r| ==> r[i] == lens[syms[i]]
  {
    seq(|syms|, i requires 0 <= i < |syms| => lens[syms[i]])
  }

  /**
   Index bits of the sub-table opened for the first of the codes whose lengths are ls, all
   longer than root: enlarged until the shorter codes fill it or the longest code fits.
   */
  function SubBits(ls: seq<nat>, root: nat, max: nat, c: nat, left: int): (r: nat)
    ensures r >= c
    ensures r == c || r + root <= max
    decreases max - c
  {
    if c + root >= max then c
    else
      var left' := left - Count(ls, c + root);
      if left' <= 0 then c else SubBits(ls, root, max, c + 1, 2 * left')
  }

  /** Does the k-th code in sorted order start a new sub-table? */
  predicate OpensSubTable(lens: seq<nat>, syms: seq<nat>, root: nat, k: nat)
    requires forall i :: 0 <= i < |syms| ==> syms[i] < |lens| && 1 <= lens[syms[i]]
    requires 1 <= k < |syms|
  {
    && lens[syms[k]] > root
    && (lens[syms[k - 1]] <= root
        || Codeword(lens, syms[k])[..root] != Codeword(lens, syms[k - 1])[..root])
  }

  /** Entries of the sub-tables opened by codes 1..k. */
  function SubSpace(lens: seq<nat>, syms: seq<nat>, root: nat, max: nat, k: nat): (r: nat)
    requires forall i :: 0 <= i < |syms| ==> syms[i] < |lens| && 1 <= lens[syms[i]]
    requires k < |syms|
  {
    if k == 0 then 0
    else
      SubSpace(lens, syms, root, max, k - 1) +
      (if OpensSubTable(lens, syms, root, k) then Pow2(CurrBits(lens, syms, root, max, k)) else 0)
  }

  function CurrBits(lens: seq<nat>, syms: seq<nat>, root: nat, max: nat, k: nat): (r: nat)
    requires forall i :: 0 <= i < |syms| ==> syms[i] < |lens| && 1 <= lens[syms[i]]
    requires k < |syms| && lens[syms[k]] > root
    ensures r >= lens[syms[k]] - root
  {
    var c := lens[syms[k]] - root;
    SubBits(LensOf(lens, syms)[k..], root, max, c, Pow2(c))
  }

  /** Index bits of the root table when bits are asked for. */
  function RootBits(lens: seq<nat>, syms: seq<nat>, bits: nat): nat
    requires syms != [] && forall i :: 0 <= i < |syms| ==> syms[i] < |lens| && 1 <= lens[syms[i]]
  {
    var min, max := lens[syms[0]], lens[syms[|syms| - 1]];
    var r := if bits > max then max else bits;
    if r < min then min else r
  }

  /** Entries the whole table takes. */
  function TableSize(lens: seq<nat>, bits: nat): nat {
    var syms := SortedSyms(lens, MAXBITS);
    if syms == [] then 2
    else
      var root := RootBits(lens, syms, bits);
      Pow2(root) + SubSpace(lens, syms, root, lens[syms[|syms| - 1]], |syms| - 1)
  }

  /** The check against ENOUGH, which applies to the two large codes only. */
  predicate Fits(kind: Kind, lens: seq<nat>, bits: nat) {
    match kind
    case CODES => true
    case LENS => SortedSyms(lens, MAXBITS) == [] || TableSize(lens, bits) <= ENOUGH_LENS
    case DISTS => SortedSyms(lens, MAXBITS) == [] || TableSize(lens, bits) <= ENOUGH_DISTS
  }
}
