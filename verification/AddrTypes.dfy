/**
 The data of the address manager (src/addrman.h) and the placement of an
 address in its two tables: keyed hashes pick a bucket and a position.
 */
module AddrTypes {

  const TRIED_BUCKETS := 256
  const NEW_BUCKETS := 1024
  const BUCKET_SIZE := 64
  const TRIED_BUCKETS_PER_GROUP := 8
  const NEW_BUCKETS_PER_SOURCE_GROUP := 64
  const NEW_BUCKETS_PER_ADDRESS := 8
  const HORIZON_DAYS := 30
  const RETRIES := 3
  const MAX_FAILURES := 10
  const MIN_FAIL_DAYS := 7
  const REPLACEMENT_SECONDS := 4 * 60 * 60
  const GETADDR_MAX_PCT := 23
  const GETADDR_MAX := 2500
  const TRIED_COLLISION_SIZE := 10
  const TEST_WINDOW := 40 * 60
  const DAY := 24 * 60 * 60

  /** An IP address; the key of mapAddr, which ignores the port. */
  datatype NetAddr = NetAddr(ip: nat)

  /** An IP address and a port. */
  datatype Service = Service(addr: NetAddr, port: nat)

  /** An advertised address: the service flags are the set of flag bits. */
  datatype Address = Address(svc: Service, services: set<nat>, time: nat)

  /** What the manager knows about one address, apart from where it keeps it. */
  datatype Entry = Entry(
    svc: Service, services: set<nat>, time: nat, source: NetAddr,
    lastSuccess: int, attempts: int, lastTry: int, lastCountAttempt: int)

  /** CAddrInfo: an entry together with its bookkeeping. */
  datatype Info = Info(entry: Entry, refCount: int, inTried: bool, randomPos: int)

  /** What is fed to the keyed hash, one constructor per use. */
  datatype Preimage =
    | OfKey(key: int, svc: Service)
    | OfGroup(key: int, group: int, choice: nat)
    | OfSource(key: int, group: int, sourceGroup: int)
    | OfSourceGroup(key: int, sourceGroup: int, choice: nat)
    | OfPosition(key: int, isNew: bool, bucket: nat, svc: Service)

  /** The functions the manager calls and does not define. */
  datatype Env = Env(
    hash: Preimage -> nat, group: NetAddr -> int,
    routable: NetAddr -> bool, valid: NetAddr -> bool)

  function TriedBucket(env: Env, key: int, svc: Service): (b: nat)
    ensures b < TRIED_BUCKETS
  {
    var choice := env.hash(OfKey(key, svc)) % TRIED_BUCKETS_PER_GROUP;
    env.hash(OfGroup(key, env.group(svc.addr), choice)) % TRIED_BUCKETS
  }

  function NewBucket(env: Env, key: int, svc: Service, source: NetAddr): (b: nat)
    ensures b < NEW_BUCKETS
  {
    var sourceGroup := env.group(source);
    var choice := env.hash(OfSource(key, env.group(svc.addr), sourceGroup)) % NEW_BUCKETS_PER_SOURCE_GROUP;
    env.hash(OfSourceGroup(key, sourceGroup, choice)) % NEW_BUCKETS
  }

  function Position(env: Env, key: int, svc: Service, isNew: bool, bucket: nat): (p: nat)
    ensures p < BUCKET_SIZE
  {
    env.hash(OfPosition(key, isNew, bucket, svc)) % BUCKET_SIZE
  }

  function TriedPosition(env: Env, key: int, svc: Service): (p: nat)
    ensures p < BUCKET_SIZE
  {
    Position(env, key, svc, false, TriedBucket(env, key, svc))
  }

  predicate IsTerrible(e: Entry, now: int) {
    if e.lastTry != 0 && e.lastTry >= now - 60 then false
    else if e.time > now + 10 * 60 then true
    else if e.time == 0 || now - e.time > HORIZON_DAYS * DAY then true
    else if e.lastSuccess == 0 && e.attempts >= RETRIES then true
    else now - e.lastSuccess > MIN_FAIL_DAYS * DAY && e.attempts >= MAX_FAILURES
  }

  /** Conversion to the 32 bits of nTime. */
  function ToTime(t: int): (r: nat)
    ensures 0 <= t < 0x1_0000_0000 ==> r == t
  {
    t % 0x1_0000_0000
  }
}
