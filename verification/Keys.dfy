/** Shard keys: a logical key, the delimiter, and a shard index in decimal. */
module Keys {
  import opened Rounding
  import opened Varint
  import opened Wrappers

  const DELIMITER: Byte := 35

  const ZERO: Byte := 48

  predicate Digit(b: Byte) {
    ZERO <= b <= ZERO + 9
  }

  function Decimal(n: nat): (digits: seq<Byte>)
    ensures digits != [] && forall i :: 0 <= i < |digits| ==> Digit(digits[i])
    ensures digits[0] == ZERO ==> n == 0 && |digits| == 1
  {
    if n < 10 then [ZERO + n] else Decimal(n / 10) + [ZERO + n % 10]
  }

  datatype Result = Ok(key: seq<Byte>) | ValueError

  /** `digest` stands for the payload's hash, read as an integer. */
  function ShardKey(key: seq<Byte>, n: int, digest: nat): Result {
    if n < 1 then ValueError else Ok(key + [DELIMITER] + Decimal(digest % n))
  }

  /** The last position of the delimiter. */
  function LastDelimiter(key: seq<Byte>): (at: Option<nat>)
    ensures at.Some? ==> at.value < |key| && key[at.value] == DELIMITER && DELIMITER !in key[at.value + 1..]
    ensures at.None? ==> DELIMITER !in key
  {
    if key == [] then None
    else if key[|key| - 1] == DELIMITER then Some(|key| - 1)
    else
      var at := LastDelimiter(key[..|key| - 1]);
      assert key == key[..|key| - 1] + [key[|key| - 1]];
      assert at.Some? ==> key[at.value + 1..] == key[..|key| - 1][at.value + 1..] + [key[|key| - 1]];
      at
  }

  predicate IsDigits(s: seq<Byte>) {
    s != [] && forall i :: 0 <= i < |s| ==> Digit(s[i])
  }

  function UnshardKey(key: seq<Byte>): Result {
    match LastDelimiter(key)
    case None => ValueError
    case Some(at) => if IsDigits(key[at + 1..]) then Ok(key[..at]) else ValueError
  }

  // ----- the suffix is read back -----

  /** The last delimiter before a suffix that has none. */
  lemma LastIsAt(logical: seq<Byte>, suffix: seq<Byte>)
    requires DELIMITER !in suffix
    ensures LastDelimiter(logical + [DELIMITER] + suffix) == Some(|logical|)
  {
    var key := logical + [DELIMITER] + suffix;
    var at := LastDelimiter(key);
    assert key[|logical|] == DELIMITER;
    assert key[|logical| + 1..] == suffix;
  }

  ghost predicate AreDigits(s: seq<Byte>) {
    s != [] && forall i :: 0 <= i < |s| ==> 48 <= s[i] <= 57
  }

  /** A key unshards exactly if it ends in the delimiter and digits; what precedes them is
      the logical key, delimiters of its own included. */
  lemma UnshardsIff(key: seq<Byte>, logical: seq<Byte>)
    ensures UnshardKey(key) == Ok(logical) <==>
            exists digits :: AreDigits(digits) && key == logical + [35] + digits
  {
    if digits :| IsDigits(digits) && key == logical + [DELIMITER] + digits {
      LastIsAt(logical, digits);
      assert key[|logical| + 1..] == digits && key[..|logical|] == logical;
    }
    if UnshardKey(key) == Ok(logical) {
      var at := LastDelimiter(key).value;
      assert key == key[..at] + [key[at]] + key[at + 1..];
      assert IsDigits(key[at + 1..]);
    }
  }

  /** Unsharding undoes sharding, for every key and every shard count it accepts. */
  lemma ShardRoundTrip(key: seq<Byte>, n: int, digest: nat)
    ensures ShardKey(key, n, digest).ValueError? <==> n < 1
    ensures n >= 1 ==> UnshardKey(ShardKey(key, n, digest).key) == Ok(key)
  {
    if n >= 1 {
      assert IsDigits(Decimal(digest % n));
      UnshardsIff(ShardKey(key, n, digest).key, key);
    }
  }

  function Parse(digits: seq<Byte>): int {
    if digits == [] then 0 else Parse(digits[..|digits| - 1]) * 10 + (digits[|digits| - 1] - ZERO)
  }

  lemma {:induction false} DecimalParses(n: nat)
    ensures Parse(Decimal(n)) == n
    decreases n
  {
    if n >= 10 {
      DecimalParses(n / 10);
      assert Decimal(n)[..|Decimal(n)| - 1] == Decimal(n / 10);
    } else {
      assert Parse([]) == 0 && Decimal(n)[..0] == [];
    }
  }

  /** A physical key determines its logical key and its index, which is below the count. */
  lemma ShardsAreDisjoint(key: seq<Byte>, n: int, digest: nat, key': seq<Byte>, n': int, digest': nat)
    requires n >= 1 && n' >= 1 && ShardKey(key, n, digest) == ShardKey(key', n', digest')
    ensures key == key' && digest % n == digest' % n' && 0 <= digest % n < n
  {
    ShardRoundTrip(key, n, digest);
    ShardRoundTrip(key', n', digest');
    var physical, at := ShardKey(key, n, digest).key, |key|;
    assert physical[at + 1..] == Decimal(digest % n) == Decimal(digest' % n');
    DecimalParses(digest % n);
    DecimalParses(digest' % n');
  }

  /** The key, `#`, and the index in decimal, without leading zeros. */
  ghost predicate OnShard(physical: seq<Byte>, key: seq<Byte>, index: nat) {
    exists digits ::
      && physical == key + [35] + digits
      && AreDigits(digits) && Parse(digits) == index && (|digits| > 1 ==> digits[0] != ZERO)
  }

  lemma IndexIsReadBack(key: seq<Byte>, index: nat)
    ensures OnShard(key + [DELIMITER] + Decimal(index), key, index)
  {
    DecimalParses(index);
  }

  // ----- assigning shards -----

  datatype Assignment = Hash | RoundRobin

  datatype Payload = ExternalEvent(event: seq<Byte>) | Other(content: seq<Byte>)

  datatype Envelope = Envelope(entityKey: seq<Byte>, payload: Payload)

  /** An external event hashes its own payload, anything else its serialization. */
  function HashPayload(e: Envelope, serialize: Envelope -> seq<Byte>): seq<Byte> {
    match e.payload
    case ExternalEvent(event) => event
    case Other(_) => serialize(e)
  }

  /** The counter that every round-robin instance of a worker shares. */
  class Counter {
    var next: nat

    constructor ()
      ensures next == 0
    {
      next := 0;
    }

    method Tick() returns (tick: nat)
      modifies this
      ensures tick == old(next) && next == old(next) + 1
    {
      tick := next;
      next := next + 1;
    }
  }

  class ShardElement {
    const n: int
    const assignment: Assignment
    const counter: Counter

    constructor (n: int, assignment: Assignment, counter: Counter)
      requires n >= 1
      ensures this.n == n && this.assignment == assignment && this.counter == counter
    {
      this.n, this.assignment, this.counter := n, assignment, counter;
    }

    /** The physical key replaces both the element's key and the envelope's; everything
        else of the envelope is kept. */
    method Process(key: seq<Byte>, e: Envelope, serialize: Envelope -> seq<Byte>, hash: seq<Byte> -> nat)
      returns (physical: seq<Byte>, sharded: Envelope)
      requires n >= 1
      modifies counter
      ensures UnshardKey(physical) == Ok(key)
      ensures sharded == Envelope(physical, e.payload)
      ensures assignment == Hash ==>
                Ok(physical) == ShardKey(key, n, hash(HashPayload(e, serialize))) && counter.next == old(counter.next)
      ensures assignment == RoundRobin ==>
                Ok(physical) == ShardKey(key, n, old(counter.next)) && counter.next == old(counter.next) + 1
      ensures assignment == Hash && e.payload.ExternalEvent? ==> OnShard(physical, key, hash(e.payload.event) % n)
      ensures assignment == Hash && !e.payload.ExternalEvent? ==> OnShard(physical, key, hash(serialize(e)) % n)
      ensures assignment == RoundRobin ==> OnShard(physical, key, old(counter.next) % n)
    {
      var digest: nat;
      if assignment == Hash {
        digest := hash(HashPayload(e, serialize));
      } else {
        digest := counter.Tick();
      }
      physical := key + [DELIMITER] + Decimal(digest % n);
      sharded := e.(entityKey := physical);
      ShardRoundTrip(key, n, digest);
      IndexIsReadBack(key, digest % n);
    }
  }

  // ----- round robin is even -----

  /** How many of the `m` ticks from `start` go to a shard. */
  function Share(start: nat, m: nat, n: nat, shard: nat): nat
    requires n >= 1
  {
    if m == 0 then 0 else Share(start, m - 1, n, shard) + (if (start + m - 1) % n == shard then 1 else 0)
  }

  /** How many of the first `x` ticks go to a shard, in closed form. */
  function ShareBelow(x: nat, n: nat, shard: nat): nat
    requires n >= 1
  {
    x / n + (if shard < x % n then 1 else 0)
  }

  lemma DivStep(x: nat, n: nat)
    requires n >= 1
    ensures x % n == n - 1 ==> (x + 1) / n == x / n + 1 && (x + 1) % n == 0
    ensures x % n < n - 1 ==> (x + 1) / n == x / n && (x + 1) % n == x % n + 1
  {
    var q, r := x / n, x % n;
    assert x == q * n + r;
    if r == n - 1 {
      DivIs(x + 1, n, q + 1, 0);
    } else {
      DivIs(x + 1, n, q, r + 1);
    }
  }

  lemma {:induction false} ShareIsClosed(start: nat, m: nat, n: nat, shard: nat)
    requires shard < n
    ensures Share(start, m, n, shard) == ShareBelow(start + m, n, shard) - ShareBelow(start, n, shard)
    decreases m
  {
    if m > 0 {
      ShareIsClosed(start, m - 1, n, shard);
      DivStep(start + m - 1, n);
    }
  }

  lemma Difference(p: int, q: int, n: nat, r: int, s: int, start: nat, m: nat)
    requires n >= 1 && 0 <= r < n && 0 <= s < n && start == n * q + r && start + m == n * p + s
    ensures r <= s ==> m / n == p - q && m % n == s - r
    ensures r > s ==> m / n == p - q - 1 && m % n == n + s - r
  {
    assert (p - q) * n == n * p - n * q;
    assert (p - q - 1) * n == (p - q) * n - n;
    if r <= s {
      DivIs(m, n, p - q, s - r);
    } else {
      DivIs(m, n, p - q - 1, n + s - r);
    }
  }

  lemma QuotientRemainder(x: nat, n: nat)
    requires n >= 1
    ensures x == n * (x / n) + x % n && 0 <= x % n < n
  {
  }

  /** Any `m` consecutive ticks give a shard the floor or the ceiling of `m / n`. */
  lemma RoundRobinIsEven(start: nat, m: nat, n: nat, shard: nat)
    requires shard < n
    ensures m / n <= Share(start, m, n, shard) <= m / n + (if m % n == 0 then 0 else 1)
  {
    hide Share, ShareBelow;
    ShareIsClosed(start, m, n, shard);
    QuotientRemainder(start, n);
    QuotientRemainder(start + m, n);
    Difference((start + m) / n, start / n, n, start % n, (start + m) % n, start, m);
    assert ShareBelow(start, n, shard) == start / n + (if shard < start % n then 1 else 0) by {
      ShareBelowIs(start, n, shard);
    }
    assert ShareBelow(start + m, n, shard) == (start + m) / n + (if shard < (start + m) % n then 1 else 0) by {
      ShareBelowIs(start + m, n, shard);
    }
  }

  lemma ShareBelowIs(x: nat, n: nat, shard: nat)
    requires n >= 1
    ensures ShareBelow(x, n, shard) == x / n + (if shard < x % n then 1 else 0)
  {
  }
}
