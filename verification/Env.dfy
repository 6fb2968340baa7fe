/** Environment lookups: the linear scans, the hashed keys, and the snapshot that replaces the scans. */
module Environment {
  import opened Machine
  import opened Bits
  import opened Mixing

  const MAX_ENV_VARS: nat := 128
  const MAX_VALUE: nat := 65535
  const EQUALS: u8 := 61

  const FNV_OFFSET: u64 := 0xcbf2_9ce4_8422_2325
  const FNV_PRIME: u64 := 0x0000_0100_0000_01b3

  // Its inverse modulo 2^64.
  const FNV_INVERSE: u64 := 0xce96_5057_aff6_957b

  /** One `KEY=VALUE` string, without its terminator. */
  type Entry = seq<u8>

  // ----- the hash -----

  function FnvStep(hash: u64, byte: u64): u64 {
    WrappingMul(Xor64(hash, byte), FNV_PRIME)
  }

  function Fnv(bytes: seq<u8>): u64 {
    FoldWith(FnvStep, FNV_OFFSET, bytes)
  }

  method ComputeFnv(bytes: seq<u8>) returns (hash: u64)
    ensures hash == Fnv(bytes)
  {
    hash := FNV_OFFSET;
    for i := 0 to |bytes|
      invariant hash == Fnv(bytes[..i])
    {
      assert bytes[..i + 1] == bytes[..i] + [bytes[i]];
      FoldOne(FnvStep, FNV_OFFSET, bytes[..i], bytes[i]);
      hash := FnvStep(hash, bytes[i]);
    }
    assert bytes[..|bytes|] == bytes;
  }

  lemma FnvStepUndone(s: u64, v: u64)
    ensures WrappingMul(FnvStep(s, v), FNV_INVERSE) == Xor64(s, v)
  {
    MulUndone(Xor64(s, v), FNV_PRIME, FNV_INVERSE);
  }

  lemma XorInjective(s: nat, v: nat, t: nat, w: nat)
    requires Xor(s, v) == Xor(t, w)
    ensures v == w <==> s == t
  {
    XorCancels(s, v);
    XorCancels(t, w);
    XorCommutes(s, v);
    XorCommutes(t, w);
    XorCancels(v, s);
    XorCancels(w, t);
  }

  lemma FnvInjective()
    ensures Injective(FnvStep)
  {
    forall s, v, t, w | FnvStep(s, v) == FnvStep(t, w)
      ensures v == w <==> s == t
    {
      FnvStepInjective(s, v, t, w);
    }
  }

  lemma FnvStepInjective(s: u64, v: u64, t: u64, w: u64)
    requires FnvStep(s, v) == FnvStep(t, w)
    ensures v == w <==> s == t
  {
    FnvStepUndone(s, v);
    FnvStepUndone(t, w);
    XorInjective(s, v, t, w);
  }

  /** Keys of equal length that differ in exactly one byte never collide. */
  lemma FnvSensitive(a: seq<u8>, b: seq<u8>, i: nat)
    requires ApartAt(a, b, i)
    ensures Fnv(a) != Fnv(b)
  {
    FnvInjective();
    FoldWithSensitive(FnvStep, FNV_OFFSET, a, b, i);
  }

  /** The hash of nothing is the offset basis, and each byte is stirred in before multiplying by the prime. */
  lemma FnvStarts(b: u8)
    ensures Fnv([]) == 0xcbf2_9ce4_8422_2325
    ensures Fnv([b]) == Xor(0xcbf2_9ce4_8422_2325, b) * 0x100_0000_01b3 % 0x1_0000_0000_0000_0000
  {
    FoldOne(FnvStep, FNV_OFFSET, [], b);
    assert [] + [b as u64] == [b];
  }

  // ----- the scans -----

  /** The position of the first `=`, or the length. */
  function Separator(e: Entry): (k: nat)
    ensures k <= |e|
    ensures k < |e| ==> e[k] == EQUALS
    ensures forall j :: 0 <= j < k ==> e[j] != EQUALS
  {
    if e == [] then 0
    else if e[0] == EQUALS then 0
    else
      assert forall j :: 0 < j < |e| ==> e[j] == e[1..][j - 1];
      1 + Separator(e[1..])
  }

  predicate HasSeparator(e: Entry) {
    Separator(e) < |e|
  }

  function NameOf(e: Entry): seq<u8> {
    e[..Separator(e)]
  }

  function ValueOf(e: Entry): seq<u8>
    requires HasSeparator(e)
  {
    e[Separator(e) + 1..]
  }

  /** What `get` accepts: the key, a `=`, and at least one byte more. */
  predicate Matches(e: Entry, key: seq<u8>) {
    |e| > |key| + 1 && e[..|key|] == key && e[|key|] == EQUALS
  }

  function Get(block: seq<Entry>, key: seq<u8>): Option<seq<u8>> {
    if block == [] then None
    else if Matches(block[0], key) then Some(block[0][|key| + 1..])
    else Get(block[1..], key)
  }

  /** The scan by hash gives up at the first entry without a `=`. */
  function GetPhase(block: seq<Entry>, hash: u64): Option<seq<u8>> {
    if block == [] then None
    else if !HasSeparator(block[0]) then None
    else if Fnv(NameOf(block[0])) == hash then Some(ValueOf(block[0]))
    else GetPhase(block[1..], hash)
  }

  method ScanKey(block: seq<Entry>, key: seq<u8>) returns (value: Option<seq<u8>>)
    ensures value == Get(block, key)
  {
    for i := 0 to |block|
      invariant Get(block, key) == Get(block[i..], key)
    {
      assert block[i..][1..] == block[i + 1..];
      if Matches(block[i], key) {
        return Some(block[i][|key| + 1..]);
      }
    }
    return None;
  }

  method ScanPhase(block: seq<Entry>, hash: u64) returns (value: Option<seq<u8>>)
    ensures value == GetPhase(block, hash)
  {
    for i := 0 to |block|
      invariant GetPhase(block, hash) == GetPhase(block[i..], hash)
    {
      assert block[i..][1..] == block[i + 1..];
      if !HasSeparator(block[i]) {
        return None;
      }
      var name := ComputeFnv(NameOf(block[i]));
      if name == hash {
        return Some(ValueOf(block[i]));
      }
    }
    return None;
  }

  // ----- the snapshot -----

  datatype Stored = Stored(hash: u64, value: seq<u8>)

  /** The stored length saturates at 65535. */
  function Store(e: Entry): Stored
    requires HasSeparator(e)
  {
    Stored(Fnv(NameOf(e)), ValueOf(e)[..Min(|ValueOf(e)|, MAX_VALUE)])
  }

  /** The first entries with a separator, as many as there is room for. */
  function Collapse(block: seq<Entry>, room: nat): seq<Stored> {
    if block == [] || room == 0 then []
    else if HasSeparator(block[0]) then [Store(block[0])] + Collapse(block[1..], room - 1)
    else Collapse(block[1..], room)
  }

  function SnapshotGet(entries: seq<Stored>, hash: u64): Option<seq<u8>> {
    if entries == [] then None
    else if entries[0].hash == hash then Some(entries[0].value)
    else SnapshotGet(entries[1..], hash)
  }

  /** What entry `i` adds to the entries stored before it. */
  lemma CollapseStep(before: seq<Stored>, block: seq<Entry>, i: nat, room: nat)
    requires i < |block|
    ensures before + Collapse(block[i..], room) ==
      if HasSeparator(block[i]) && room > 0 then before + [Store(block[i])] + Collapse(block[i + 1..], room - 1)
      else before + Collapse(block[i + 1..], room)
  {
    assert block[i..][1..] == block[i + 1..];
    if HasSeparator(block[i]) && room > 0 {
      var rest := Collapse(block[i + 1..], room - 1);
      assert before + ([Store(block[i])] + rest) == before + [Store(block[i])] + rest;
    }
  }

  class EnvSnapshot {
    const entries: array<Stored>
    var count: nat

    ghost predicate Valid()
      reads this
    {
      entries.Length == MAX_ENV_VARS && count <= MAX_ENV_VARS
    }

    ghost function Contents(): seq<Stored>
      requires Valid()
      reads this, entries
    {
      entries[..count]
    }

    constructor Empty()
      ensures Valid() && Contents() == [] && fresh(entries)
    {
      entries := new Stored[MAX_ENV_VARS](_ => Stored(0, []));
      count := 0;
    }

    method Fill(block: seq<Entry>)
      requires Valid() && count == 0
      modifies this, entries
      ensures Valid() && Contents() == Collapse(block, MAX_ENV_VARS)
    {
      for i := 0 to |block|
        invariant Valid()
        invariant Contents() + Collapse(block[i..], MAX_ENV_VARS - count) == Collapse(block, MAX_ENV_VARS)
      {
        CollapseStep(Contents(), block, i, MAX_ENV_VARS - count);
        if HasSeparator(block[i]) {
          if count < MAX_ENV_VARS {
            var stored := StoreEntry(block[i]);
            Push(stored);
          }
        }
      }
    }

    method Push(stored: Stored)
      requires Valid() && count < MAX_ENV_VARS
      modifies this, entries
      ensures Valid() && count == old(count) + 1 && Contents() == old(Contents()) + [stored]
    {
      entries[count] := stored;
      count := count + 1;
    }

    method StoreEntry(e: Entry) returns (stored: Stored)
      requires HasSeparator(e)
      ensures stored == Store(e)
    {
      var hash := ComputeFnv(NameOf(e));
      var length := Min(|ValueOf(e)|, MAX_VALUE);
      stored := Stored(hash, ValueOf(e)[..length]);
    }

    method Lookup(hash: u64) returns (value: Option<seq<u8>>)
      requires Valid()
      ensures value == SnapshotGet(Contents(), hash)
    {
      for i := 0 to count
        invariant SnapshotGet(Contents(), hash) == SnapshotGet(Contents()[i..], hash)
      {
        assert Contents()[i..][1..] == Contents()[i + 1..];
        if entries[i].hash == hash {
          return Some(entries[i].value);
        }
      }
      return None;
    }
  }

  // ----- when the snapshot agrees with the scan -----

  /** The first entry with a separator whose name has the hash, or the length. */
  function FirstMatch(block: seq<Entry>, hash: u64): (i: nat)
    ensures i <= |block|
    ensures i < |block| ==> HasSeparator(block[i]) && Fnv(NameOf(block[i])) == hash
  {
    if block == [] then 0
    else if HasSeparator(block[0]) && Fnv(NameOf(block[0])) == hash then 0
    else 1 + FirstMatch(block[1..], hash)
  }

  /** How many of the first `n` entries have a separator. */
  function Separated(block: seq<Entry>, n: nat): (k: nat)
    requires n <= |block|
    ensures k <= n
    ensures k == n <==> forall j :: 0 <= j < n ==> HasSeparator(block[j])
  {
    if n == 0 then 0 else Separated(block, n - 1) + if HasSeparator(block[n - 1]) then 1 else 0
  }

  lemma {:induction false} SeparatedTail(block: seq<Entry>, n: nat)
    requires 0 < n <= |block|
    ensures Separated(block, n) == Separated(block[1..], n - 1) + if HasSeparator(block[0]) then 1 else 0
  {
    if n > 1 {
      SeparatedTail(block, n - 1);
    }
  }

  /** The scan by hash finds the first match unless an entry without a separator comes before it. */
  lemma {:induction false} PhaseFinds(block: seq<Entry>, hash: u64)
    ensures var i := FirstMatch(block, hash);
            GetPhase(block, hash) ==
              if i < |block| && Separated(block, i) == i then Some(ValueOf(block[i])) else None
  {
    if block != [] {
      var i := FirstMatch(block, hash);
      PhaseFinds(block[1..], hash);
      if i > 0 {
        SeparatedTail(block, i);
      }
    }
  }

  lemma SnapshotGetFront(first: Stored, rest: seq<Stored>, hash: u64)
    ensures SnapshotGet([first] + rest, hash) == if first.hash == hash then Some(first.value) else SnapshotGet(rest, hash)
  {
    assert ([first] + rest)[1..] == rest;
  }

  /** What the snapshot is expected to find. */
  function Expected(block: seq<Entry>, room: nat, hash: u64): Option<seq<u8>> {
    var i := FirstMatch(block, hash);
    if i < |block| && Separated(block, i) < room then Some(Store(block[i]).value) else None
  }

  /** An entry with a separator that does not match takes up one place. */
  lemma ExpectedAfterMiss(block: seq<Entry>, room: nat, hash: u64)
    requires block != [] && !(HasSeparator(block[0]) && Fnv(NameOf(block[0])) == hash)
    requires HasSeparator(block[0]) ==> room > 0
    ensures Expected(block, room, hash) == Expected(block[1..], if HasSeparator(block[0]) then room - 1 else room, hash)
  {
    SeparatedTail(block, FirstMatch(block, hash));
  }

  /** The snapshot finds the first match, its value cut at 65535 bytes, if it is among the first it has room for. */
  lemma {:induction false} SnapshotFinds(block: seq<Entry>, room: nat, hash: u64)
    ensures SnapshotGet(Collapse(block, room), hash) == Expected(block, room, hash)
  {
    if block != [] && room > 0 {
      if HasSeparator(block[0]) {
        SnapshotFinds(block[1..], room - 1, hash);
        SnapshotGetFront(Store(block[0]), Collapse(block[1..], room - 1), hash);
      } else {
        SnapshotFinds(block[1..], room, hash);
      }
      if !(HasSeparator(block[0]) && Fnv(NameOf(block[0])) == hash) {
        ExpectedAfterMiss(block, room, hash);
      }
    }
  }

  lemma StoredValue(e: Entry)
    requires HasSeparator(e)
    ensures Store(e).value == ValueOf(e) <==> |ValueOf(e)| <= MAX_VALUE
  {
    assert ValueOf(e)[..|ValueOf(e)|] == ValueOf(e);
  }

  /**
   The snapshot and the scan give the same answer exactly when there is no match, or the first match
   has a representable value, room in the snapshot and only separated entries before it, or it has
   neither room nor only separated entries before it.
   */
  lemma SnapshotAgreesExactly(block: seq<Entry>, hash: u64)
    ensures var i := FirstMatch(block, hash);
            SnapshotGet(Collapse(block, 128), hash) == GetPhase(block, hash) <==>
              || i == |block|
              || (Separated(block, i) == i && i < 128 && |ValueOf(block[i])| <= 65535)
              || (Separated(block, i) < i && Separated(block, i) >= 128)
  {
    PhaseFinds(block, hash);
    SnapshotFinds(block, MAX_ENV_VARS, hash);
    var i := FirstMatch(block, hash);
    if i < |block| {
      StoredValue(block[i]);
    }
  }

  /** With at most 128 entries, each separated and with a representable value, the snapshot replaces the scan for every key. */
  lemma SnapshotReplacesScan(block: seq<Entry>, hash: u64)
    requires |block| <= 128
    requires forall j :: 0 <= j < |block| ==> HasSeparator(block[j]) && |ValueOf(block[j])| <= 65535
    ensures SnapshotGet(Collapse(block, 128), hash) == GetPhase(block, hash)
  {
    SnapshotAgreesExactly(block, hash);
  }

  // ----- when hashing the key agrees with comparing it -----

  /** For a key without a `=`, `get` accepts exactly the entries with that name and a non-empty value. */
  lemma MatchesExactly(e: Entry, key: seq<u8>)
    requires 61 !in key
    ensures Matches(e, key) <==> HasSeparator(e) && NameOf(e) == key && ValueOf(e) != []
    ensures Matches(e, key) ==> e[|key| + 1..] == ValueOf(e)
  {
    var k := Separator(e);
    if Matches(e, key) {
      assert forall j :: 0 <= j < |key| ==> e[j] == e[..|key|][j] && e[j] in key;
      assert k == |key|;
    }
    if HasSeparator(e) && NameOf(e) == key {
      assert |key| == k;
    }
  }

  /** The entry at which the scan by hash ends: the first without a separator or with the hash, or the length. */
  function FirstDecisive(block: seq<Entry>, hash: u64): (i: nat)
    ensures i <= |block|
    ensures i < |block| ==> !HasSeparator(block[i]) || Fnv(NameOf(block[i])) == hash
  {
    if block == [] then 0
    else if !HasSeparator(block[0]) || Fnv(NameOf(block[0])) == hash then 0
    else 1 + FirstDecisive(block[1..], hash)
  }

  /** The entry at which the scan by name ends: the first it accepts, or the length. */
  function FirstAccepted(block: seq<Entry>, key: seq<u8>): (j: nat)
    ensures j <= |block|
    ensures j < |block| ==> Matches(block[j], key)
    ensures forall k :: 0 <= k < j ==> !Matches(block[k], key)
  {
    if block == [] then 0
    else if Matches(block[0], key) then 0
    else
      assert forall k :: 0 < k < |block| ==> block[k] == block[1..][k - 1];
      1 + FirstAccepted(block[1..], key)
  }

  lemma {:induction false} PhaseEnds(block: seq<Entry>, hash: u64)
    ensures var i := FirstDecisive(block, hash);
            GetPhase(block, hash) == if i < |block| && HasSeparator(block[i]) then Some(ValueOf(block[i])) else None
  {
    if block != [] {
      PhaseEnds(block[1..], hash);
    }
  }

  lemma {:induction false} GetEnds(block: seq<Entry>, key: seq<u8>)
    requires EQUALS !in key
    ensures var j := FirstAccepted(block, key);
            j < |block| ==> HasSeparator(block[j]) && NameOf(block[j]) == key
    ensures var j := FirstAccepted(block, key);
            Get(block, key) == if j < |block| then Some(ValueOf(block[j])) else None
  {
    if block != [] {
      MatchesExactly(block[0], key);
      GetEnds(block[1..], key);
    }
  }

  /** The scan by hash never reads further than the scan by name. */
  lemma {:induction false} HashEndsFirst(block: seq<Entry>, key: seq<u8>)
    requires EQUALS !in key
    ensures FirstDecisive(block, Fnv(key)) <= FirstAccepted(block, key)
  {
    if block != [] {
      MatchesExactly(block[0], key);
      HashEndsFirst(block[1..], key);
    }
  }

  /**
   The two scans agree exactly when neither a bare entry nor the hash of the key occurs; or a bare
   entry comes first and no entry has the name and a value; or the first entry with the hash has the
   same value as the first with the name and a value.
   */
  lemma ScansAgreeExactly(block: seq<Entry>, key: seq<u8>)
    requires EQUALS !in key
    ensures var i, j := FirstDecisive(block, Fnv(key)), FirstAccepted(block, key);
            && (j < |block| ==> HasSeparator(block[j]))
            && (Get(block, key) == GetPhase(block, Fnv(key)) <==>
                  || i == |block|
                  || (!HasSeparator(block[i]) && j == |block|)
                  || (HasSeparator(block[i]) && j < |block| && ValueOf(block[j]) == ValueOf(block[i])))
  {
    PhaseEnds(block, Fnv(key));
    GetEnds(block, key);
    HashEndsFirst(block, key);
  }

  /** The entry has a separator, and has the hash of the key only if it has the key and a value. */
  ghost predicate NoSurprise(e: Entry, key: seq<u8>) {
    HasSeparator(e) && (Fnv(NameOf(e)) == Fnv(key) ==> NameOf(e) == key && ValueOf(e) != [])
  }

  /** Where every entry is separated, no other name collides with the key and no matching value is empty, the scans agree. */
  lemma ScansAgree(block: seq<Entry>, key: seq<u8>)
    requires EQUALS !in key
    requires forall j {:trigger block[j]} :: 0 <= j < |block| ==> NoSurprise(block[j], key)
    ensures Get(block, key) == GetPhase(block, Fnv(key))
  {
    ScansAgreeExactly(block, key);
    HashEndsFirst(block, key);
    var i := FirstDecisive(block, Fnv(key));
    if i < |block| {
      assert NoSurprise(block[i], key);
      MatchesExactly(block[i], key);
    }
  }

  // ----- inputs at which the lookups differ -----

  function Pair(name: seq<u8>, value: seq<u8>): Entry {
    name + [EQUALS] + value
  }

  lemma PairParts(name: seq<u8>, value: seq<u8>)
    requires EQUALS !in name
    ensures HasSeparator(Pair(name, value)) && NameOf(Pair(name, value)) == name && ValueOf(Pair(name, value)) == value
  {
    var e := Pair(name, value);
    assert Separator(e) == |name| by {
      assert forall j :: 0 <= j < |name| ==> e[j] == name[j] && name[j] in name;
      assert e[|name|] == EQUALS;
    }
  }

  /** A matching entry with an empty value is found by its hash and missed by its name. */
  lemma EmptyValueDisagrees(key: seq<u8>)
    requires EQUALS !in key
    ensures Get([Pair(key, [])], key) == None && GetPhase([Pair(key, [])], Fnv(key)) == Some([])
  {
    PairParts(key, []);
    var block: seq<Entry> := [Pair(key, [])];
    assert block[1..] == [];
  }

  const NAME_A: seq<u8> := [65]
  const NAME_B: seq<u8> := [66]

  /** The empty entry before `A=A`: the scan gives up, the snapshot skips it. */
  lemma BareEntryDisagrees()
    ensures var block: seq<Entry> := [[], Pair(NAME_A, NAME_A)];
            && GetPhase(block, Fnv(NAME_A)) == None
            && SnapshotGet(Collapse(block, 128), Fnv(NAME_A)) == Some(NAME_A)
  {
    var block: seq<Entry> := [[], Pair(NAME_A, NAME_A)];
    PairParts(NAME_A, NAME_A);
    assert block[1..] == [Pair(NAME_A, NAME_A)];
    assert FirstMatch(block, Fnv(NAME_A)) == 1;
    assert Separated(block, 1) == 0;
    SnapshotFinds(block, MAX_ENV_VARS, Fnv(NAME_A));
    StoredValue(block[1]);
  }

  /** 128 entries `A=A` before `B=A`: the scan finds the last, the snapshot has no room for it. */
  lemma LateEntryDisagrees()
    ensures var block := Repeated(Pair(NAME_A, NAME_A), 128) + [Pair(NAME_B, NAME_A)];
            && GetPhase(block, Fnv(NAME_B)) == Some(NAME_A)
            && SnapshotGet(Collapse(block, 128), Fnv(NAME_B)) == None
  {
    var first, last := Pair(NAME_A, NAME_A), Pair(NAME_B, NAME_A);
    var block := Repeated(first, MAX_ENV_VARS) + [last];
    PairParts(NAME_A, NAME_A);
    PairParts(NAME_B, NAME_A);
    FnvSensitive(NAME_A, NAME_B, 0);
    MatchAfterMisses(first, last, MAX_ENV_VARS, Fnv(NAME_B));
    assert forall j :: 0 <= j < MAX_ENV_VARS ==> block[j] == first;
    PhaseFinds(block, Fnv(NAME_B));
    SnapshotFinds(block, MAX_ENV_VARS, Fnv(NAME_B));
  }

  function Repeated(e: Entry, n: nat): (block: seq<Entry>)
    ensures |block| == n && forall j :: 0 <= j < n ==> block[j] == e
  {
    seq(n, _ => e)
  }

  lemma {:induction false} MatchAfterMisses(first: Entry, last: Entry, n: nat, hash: u64)
    requires !(HasSeparator(first) && Fnv(NameOf(first)) == hash)
    requires HasSeparator(last) && Fnv(NameOf(last)) == hash
    ensures FirstMatch(Repeated(first, n) + [last], hash) == n
  {
    if n > 0 {
      MatchAfterMisses(first, last, n - 1, hash);
      assert (Repeated(first, n) + [last])[1..] == Repeated(first, n - 1) + [last];
    }
  }

  /** A value of 65536 bytes: the scan returns it whole, the snapshot without its last byte. */
  lemma LongValueDisagrees()
    ensures var value: seq<u8> := seq(65536, _ => 65);
            && GetPhase([Pair(NAME_A, value)], Fnv(NAME_A)) == Some(value)
            && SnapshotGet(Collapse([Pair(NAME_A, value)], 128), Fnv(NAME_A)) == Some(value[..65535])
  {
    var value: seq<u8> := seq(MAX_VALUE + 1, _ => 65);
    var block: seq<Entry> := [Pair(NAME_A, value)];
    PairParts(NAME_A, value);
    assert FirstMatch(block, Fnv(NAME_A)) == 0;
    SnapshotFinds(block, MAX_ENV_VARS, Fnv(NAME_A));
  }
}
