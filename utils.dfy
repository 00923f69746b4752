/** generate_modification_code: draw UUIDs until the first eight characters
    of one are a code no stored prompt holds. The UUIDs the loop would draw
    are passed in; when they run out without a free code the generator
    reports failure instead of drawing forever. */
module Utils {
  import opened Api
  import opened Uuid4
  import opened Models

  /** str(uuid.uuid4())[:8]: the first 32 bits of the UUID in lowercase hex. */
  function CodeOf(u: Uuid): (c: string)
    ensures |c| == 8 && IsLowerHex(c)
    ensures c == Hex(u[..8])
  {
    UuidString(u)[..8]
  }

  /** Returns the first drawn code not held by any stored prompt, and how
      many draws that took. It only reads the table. */
  method GenerateModificationCode(db: PromptTable, draws: seq<Uuid>) returns (code: Option<string>, used: nat)
    ensures used <= |draws|
    ensures code.Some? ==> 0 < used && code.value == CodeOf(draws[used - 1]) && code.value !in Codes(db.rows)
    ensures code.Some? ==> forall i :: 0 <= i < used - 1 ==> CodeOf(draws[i]) in Codes(db.rows)
    ensures code.None? <==> forall i :: 0 <= i < |draws| ==> CodeOf(draws[i]) in Codes(db.rows)
    ensures code.None? ==> used == |draws|
    ensures code.Some? ==> used == NextFree(draws, Codes(db.rows), 0) + 1
    ensures code.None? <==> NextFree(draws, Codes(db.rows), 0) == |draws|
  {
    used := 0;
    while used < |draws|
      invariant used <= |draws|
      invariant forall i :: 0 <= i < used ==> CodeOf(draws[i]) in Codes(db.rows)
    {
      var candidate := CodeOf(draws[used]);
      used := used + 1;
      if candidate !in Codes(db.rows) {
        return Some(candidate), used;
      }
    }
    code := None;
  }

  /** Where the generator stops when it starts drawing at position from:
      the first draw from there on whose code no stored prompt holds, or
      |draws| when there is none. */
  function NextFree(draws: seq<Uuid>, taken: set<string>, from: nat): (j: nat)
    requires from <= |draws|
    ensures from <= j <= |draws|
    ensures forall i :: from <= i < j ==> CodeOf(draws[i]) in taken
    ensures j < |draws| ==> CodeOf(draws[j]) !in taken
    decreases |draws| - from
  {
    if from == |draws| then from
    else if CodeOf(draws[from]) !in taken then from
    else NextFree(draws, taken, from + 1)
  }

  /** A position with only taken draws before it and a free one (or the
      end) at it is where the generator stops. */
  lemma NextFreeIs(draws: seq<Uuid>, taken: set<string>, from: nat, j: nat)
    requires from <= j <= |draws|
    requires forall i :: from <= i < j ==> CodeOf(draws[i]) in taken
    requires j < |draws| ==> CodeOf(draws[j]) !in taken
    ensures NextFree(draws, taken, from) == j
  {
  }

  /** The generator on the draws from position from on, as a caller that
      keeps drawing from one stream sees it: the code is the first free draw
      from there, and next is the position after it. */
  method GenerateFrom(db: PromptTable, draws: seq<Uuid>, from: nat) returns (code: Option<string>, next: nat)
    requires from <= |draws|
    ensures code.None? <==> NextFree(draws, Codes(db.rows), from) == |draws|
    ensures code.None? ==> next == from
    ensures code.Some? ==> next == NextFree(draws, Codes(db.rows), from) + 1
                           && code.value == CodeOf(draws[next - 1]) && code.value !in Codes(db.rows)
  {
    var used;
    code, used := GenerateModificationCode(db, draws[from..]);
    NextFreeOfSuffix(draws, Codes(db.rows), from, 0);
    if code.None? {
      return None, from;
    }
    assert draws[from..][used - 1] == draws[from + used - 1];
    next := from + used;
  }

  /** The generator run on the draws from d on stops where it would stop
      on all the draws when started at d. */
  lemma {:induction false} NextFreeOfSuffix(draws: seq<Uuid>, taken: set<string>, d: nat, k: nat)
    requires d + k <= |draws|
    ensures NextFree(draws[d..], taken, k) + d == NextFree(draws, taken, d + k)
    decreases |draws| - d - k
  {
    if d + k < |draws| {
      assert draws[d..][k] == draws[d + k];
      if CodeOf(draws[d + k]) in taken {
        NextFreeOfSuffix(draws, taken, d, k + 1);
      }
    }
  }
}
