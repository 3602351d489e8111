/**
The best-block hash of a stack of coins caches, and in the same way the two best anchors
(GetBestBlock, GetBestAnchor, SetBestBlock, BatchWrite and Flush; src/coins.cpp:693-719,
805-882 and src/txdb.cpp:105-129, 254-259): a null hash in a cache means that it has not
asked the view below yet.
*/
module BestHash {
  type Hash = nat

  const NULL: Hash := 0

  datatype Stack = Db(hash: Hash) | Cache(hash: Hash, below: Stack)

  /** What a view answers. */
  function Look(s: Stack): Hash {
    match s
    case Db(hash) => hash
    case Cache(hash, below) => if hash != NULL then hash else Look(below)
  }

  /** GetBestBlock: the answer is kept at every level passed. */
  function Get(s: Stack): (r: (Stack, Hash)) {
    match s
    case Db(hash) => (s, hash)
    case Cache(hash, below) =>
      if hash != NULL then (s, hash)
      else
        var (below', h) := Get(below);
        (Cache(h, below'), h)
  }

  function Set(s: Stack, hash: Hash): Stack
    requires s.Cache?
  {
    s.(hash := hash)
  }

  /** Flush: a cache below takes over the hash even if it is null, a database only if it is not. */
  function Flush(s: Stack): Stack
    requires s.Cache?
  {
    match s.below
    case Db(h) => s.(below := Db(if s.hash != NULL then s.hash else h))
    case Cache(_, below) => s.(below := Cache(s.hash, below))
  }

  /** Both stacks answer alike at every level. */
  ghost predicate Alike(s: Stack, s': Stack) {
    && Look(s) == Look(s')
    && match (s, s')
       case (Db(_), Db(_)) => true
       case (Cache(_, b), Cache(_, b')) => Alike(b, b')
       case _ => false
  }

  /** Asking gives the answer of the view and changes no level's answer. */
  lemma {:induction false} GetIsLook(s: Stack)
    ensures Get(s).1 == Look(s) && Alike(s, Get(s).0)
  {
    if s.Cache? {
      if s.hash == NULL {
        GetIsLook(s.below);
      } else {
        AlikeSelf(s);
      }
    }
  }

  lemma {:induction false} AlikeSelf(s: Stack)
    ensures Alike(s, s)
  {
    if s.Cache? {
      AlikeSelf(s.below);
    }
  }

  /** The cache has a hash of its own, or the cache below has none that could be lost. */
  predicate SafeToFlush(s: Stack)
    requires s.Cache?
  {
    s.hash != NULL || s.below.Db? || s.below.hash == NULL || s.below.hash == Look(s.below.below)
  }

  /**
  After Flush the view below answers as the flushed cache did exactly if that cache has been asked or told,
  is over the database, or the cache below has no hash of its own or the one that the view below it has; and
  then the cache itself answers as before.
  */
  lemma FlushIff(s: Stack)
    requires s.Cache?
    ensures Look(Flush(s).below) == Look(s) <==> SafeToFlush(s)
    ensures Look(Flush(s)) == Look(s) <==> SafeToFlush(s)
  {
  }

  /** Asking first makes every flush right. */
  lemma AskedIsSafe(s: Stack)
    requires s.Cache? && Look(s) != NULL
    ensures SafeToFlush(Get(s).0) && Look(Flush(Get(s).0).below) == Look(s)
  {
    GetIsLook(s);
    FlushIff(Get(s).0);
  }

  /** So does setting the hash, as the connection and disconnection of blocks do. */
  lemma SetIsSafe(s: Stack, hash: Hash)
    requires s.Cache? && hash != NULL
    ensures Look(Set(s, hash)) == hash && Look(Flush(Set(s, hash)).below) == hash
  {
    FlushIff(Set(s, hash));
  }

  /** A cache that was never asked makes the cache below forget what it was told. */
  lemma ForgottenHash(stored: Hash, told: Hash) returns (s: Stack)
    requires stored != told && told != NULL
    ensures s.Cache? && Look(s) == told && Look(Flush(s).below) == stored
  {
    s := Cache(NULL, Cache(told, Db(stored)));
  }

  //
  // Every run of a stack is a run of a list of hashes, if a cache is only flushed when that is safe.
  //

  datatype Op = Ask | Tell(hash: Hash) | PushCache | FlushTop | DropTop

  predicate Allowed(s: Stack, op: Op) {
    match op
    case Ask => true
    case PushCache => true
    case Tell(_) => s.Cache?
    case FlushTop => s.Cache? && SafeToFlush(s)
    case DropTop => s.Cache?
  }

  function Step(s: Stack, op: Op): Stack
    requires Allowed(s, op)
  {
    match op
    case Ask => Get(s).0
    case Tell(hash) => Set(s, hash)
    case PushCache => Cache(NULL, s)
    case FlushTop => Flush(s)
    case DropTop => s.below
  }

  /** A null hash stands for the answer of the view below. */
  function FlatStep(hs: seq<Hash>, op: Op): seq<Hash>
    requires |hs| >= if op.Ask? || op.PushCache? then 1 else 2
  {
    match op
    case Ask => hs
    case Tell(hash) => [if hash == NULL then hs[1] else hash] + hs[1..]
    case PushCache => [hs[0]] + hs
    case FlushTop => [hs[0], hs[0]] + hs[2..]
    case DropTop => hs[1..]
  }

  ghost predicate Agrees(s: Stack, hs: seq<Hash>) {
    && |hs| >= 1 && Look(s) == hs[0]
    && match s
       case Db(_) => |hs| == 1
       case Cache(_, below) => Agrees(below, hs[1..])
  }

  lemma {:induction false} AgreesAlike(s: Stack, s': Stack, hs: seq<Hash>)
    requires Agrees(s, hs) && Alike(s, s')
    ensures Agrees(s', hs)
  {
    if s.Cache? {
      AgreesAlike(s.below, s'.below, hs[1..]);
    }
  }

  lemma {:induction false} AgreesSize(s: Stack, hs: seq<Hash>)
    requires Agrees(s, hs)
    ensures s.Cache? ==> |hs| >= 2
  {
  }

  lemma StepRefines(s: Stack, hs: seq<Hash>, op: Op)
    requires Agrees(s, hs) && Allowed(s, op)
    ensures |hs| >= if op.Ask? || op.PushCache? then 1 else 2
    ensures Agrees(Step(s, op), FlatStep(hs, op))
  {
    AgreesSize(s, hs);
    match op
    case Ask =>
      GetIsLook(s);
      AgreesAlike(s, Get(s).0, hs);
    case Tell(hash) =>
      assert FlatStep(hs, op)[1..] == hs[1..];
    case PushCache =>
      assert FlatStep(hs, op)[1..] == hs;
    case FlushTop =>
      FlushIff(s);
      var hs' := FlatStep(hs, op);
      assert hs'[1..] == [hs[0]] + hs[2..];
      assert hs'[1..][1..] == hs[1..][1..];
    case DropTop =>
  }

  ghost predicate Reaches(s: Stack, hs: seq<Hash>, ops: seq<Op>, s': Stack, hs': seq<Hash>)
    decreases |ops|
  {
    if ops == [] then s' == s && hs' == hs
    else
      && Allowed(s, ops[0]) && (|hs| >= if ops[0].Ask? || ops[0].PushCache? then 1 else 2)
      && Reaches(Step(s, ops[0]), FlatStep(hs, ops[0]), ops[1..], s', hs')
  }

  /** Every such run answers, at every level, what the list of hashes holds. */
  lemma {:induction false} RunRefines(s: Stack, hs: seq<Hash>, ops: seq<Op>, s': Stack, hs': seq<Hash>)
    requires Agrees(s, hs) && Reaches(s, hs, ops, s', hs')
    ensures Agrees(s', hs')
    decreases |ops|
  {
    if ops != [] {
      StepRefines(s, hs, ops[0]);
      RunRefines(Step(s, ops[0]), FlatStep(hs, ops[0]), ops[1..], s', hs');
    }
  }
}
