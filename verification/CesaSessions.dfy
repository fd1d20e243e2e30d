/** Sessions of the AES/DES engine and the cache that remembers which session the engine is set up for.
    The ciphers, the key store and external DMA are abstract. */
module CesaSessions {
  import opened Common

  type Byte = x: int | 0 <= x < 0x100
  type Word = x: int | 0 <= x < 0x1_0000_0000

  datatype Oper = Encrypt | Decrypt
  datatype Algo = Des | Tdes | Aes128 | Aes192 | Aes256
  datatype Work = Ecb | Cbc | Ctr | Cfb | Ofb
  datatype Mode = Mode(oper: Oper, algo: Algo, work: Work)

  /** What a caller asks for; None stands for a value the driver does not know. */
  datatype Request = Request(oper: Option<Oper>, algo: Option<Algo>, work: Option<Work>, key: seq<Byte>, iv: seq<Byte>, stored: bool)
  {
    ghost predicate Valid() { |key| == 32 && |iv| == 16 }
  }

  /** A session. `stored`: the key comes from the key store, chosen by `map_`. */
  datatype Session = Session(mode: Mode, key: seq<Byte>, ivInit: seq<Byte>, ivLast: seq<Word>, stored: bool, map_: int)
  {
    ghost predicate Valid() { |key| == 32 && |ivInit| == 16 && |ivLast| == 4 }
  }

  /** The registers of the engine that matter, with the chaining value it goes on from. */
  datatype Engine = Engine(mode: Mode, key: seq<Word>, iv: seq<Word>)
  {
    ghost predicate Valid() { |key| == 8 && |iv| == 4 }
  }

  /** A cipher maps mode, key, chaining value and data to new data and the next chaining value. */
  datatype Env = Env(cipher: (Mode, seq<Word>, seq<Word>, seq<Byte>) -> (seq<Byte>, seq<Word>), store: int -> seq<Word>)
  {
    ghost predicate Valid() {
      && (forall m, k, v, d {:trigger cipher(m, k, v, d)} :: |cipher(m, k, v, d).1| == 4)
      && (forall x :: |store(x)| == 8)
    }
  }

  function Zeros(n: nat): (z: seq<Byte>)
    ensures |z| == n
  {
    if n == 0 then [] else [0] + Zeros(n - 1)
  }

  const NEW := Session(Mode(Encrypt, Des, Ecb), Zeros(32), Zeros(16), [0, 0, 0, 0], false, 0)

  function KeyWords(a: Algo): (n: nat)
    ensures 2 <= n <= 8
  {
    match a
    case Des => 2
    case Tdes => 6
    case Aes128 => 4
    case Aes192 => 6
    case Aes256 => 8
  }

  function IvWords(m: Mode): (n: nat)
    ensures n <= 4
  {
    if m.work == Ecb then 0 else if m.algo == Des || m.algo == Tdes then 2 else 4
  }

  predicate Conflict(m: Mode) { (m.algo == Des || m.algo == Tdes) && m.work == Ctr }

  /** `biglittle_swap`: four bytes, the first one highest. */
  function SwappedWord(a: Byte, b: Byte, c: Byte, d: Byte): Word {
    ((a * 256 + b) * 256 + c) * 256 + d
  }

  /** The first `n` words of a buffer. */
  function Words(bytes: seq<Byte>, n: nat): seq<Word>
    requires 4 * n <= |bytes|
  {
    seq(n, i requires 0 <= i < n => SwappedWord(bytes[4 * i], bytes[4 * i + 1], bytes[4 * i + 2], bytes[4 * i + 3]))
  }

  predicate NonZero(ws: seq<Word>) { exists i :: 0 <= i < |ws| && ws[i] != 0 }

  // ----- the settings of a session, as the engine should see them -----

  /** The key a session wants the engine to use. */
  function WantedKey(env: Env, c: Session): (k: seq<Word>)
    requires c.Valid() && env.Valid()
    ensures |k| == KeyWords(c.mode.algo)
  {
    if c.stored then env.store(c.map_)[..KeyWords(c.mode.algo)] else Words(c.key, KeyWords(c.mode.algo))
  }

  /** The chaining value a session goes on from: the last one saved, unless that is all zero. */
  function WantedIv(c: Session): (v: seq<Word>)
    requires c.Valid()
    ensures |v| == IvWords(c.mode)
  {
    if NonZero(c.ivLast[..IvWords(c.mode)]) then c.ivLast[..IvWords(c.mode)] else Words(c.ivInit, IvWords(c.mode))
  }

  /** The engine has the mode and key of the session. */
  ghost predicate Agrees(env: Env, e: Engine, c: Session)
    requires e.Valid() && c.Valid() && env.Valid()
  {
    e.mode == c.mode && e.key[..KeyWords(c.mode.algo)] == WantedKey(env, c)
  }

  // ----- operations -----

  /** The registers after `hw_cesa_ades_config`. */
  function Configured(env: Env, e: Engine, c: Session): (e': Engine)
    requires e.Valid() && c.Valid() && env.Valid()
    ensures e'.Valid() && Agrees(env, e', c) && e'.iv[..IvWords(c.mode)] == WantedIv(c)
  {
    var k, n := KeyWords(c.mode.algo), IvWords(c.mode);
    Engine(c.mode,
           if c.stored then env.store(c.map_) else Words(c.key, k) + e.key[k..],
           WantedIv(c) + e.iv[n..])
  }

  /** `hw_cesa_ades_config_data_prepare`: the session after it, and whether it succeeded. The work mode is stored before
      the algorithm is looked at. */
  function Prepared(c: Session, q: Request): (r: (Session, bool))
    requires c.Valid() && q.Valid()
    ensures r.0.Valid()
  {
    match q.work
    case None => (c, false)
    case Some(w) =>
      if w == Ctr && (q.algo == Some(Des) || q.algo == Some(Tdes)) then (c, false)
      else
        var c1 := c.(mode := c.mode.(work := w));
        match q.algo
        case None => (c1, false)
        case Some(a) =>
          var oper := if q.oper.Some? then q.oper.value else c.mode.oper;
          (Session(Mode(oper, a, w), q.key, q.iv, [0, 0, 0, 0], q.stored, c.map_), true)
  }

  /** The engine, the kept session (0 for none) and the live sessions. */
  datatype World = World(engine: Engine, keep: int, sessions: map<int, Session>)
  {
    ghost predicate Valid() {
      engine.Valid() && 0 !in sessions && forall s :: s in sessions ==> sessions[s].Valid()
    }
  }

  /** What the cache is asked for: drop the session if kept, keep it if not kept, or whichever applies. */
  datatype Ask = Same | Different | Both

  /** `drv_cesa_check_keep`: the new kept session, and whether it changed. */
  function CheckKeep(keep: int, s: int, ask: Ask): (int, bool) {
    if keep == s then (if ask == Different then (keep, false) else (0, true))
    else (if ask == Same then (keep, false) else (s, true))
  }

  datatype Op =
    | Create(s: int)
    | Destroy(s: int)
    | Config(s: int, q: Request)
    | ConfigOper(s: int, oper: Oper)
    | StoredKey(s: int, stored: bool, map_: int)
    | Process(s: int, data: seq<Byte>)
    | Refused(s: int)     // a process call with a bad address or length

  /** The allocator returns a fresh non-zero address; all other calls are made on live sessions. */
  predicate Enabled(w: World, op: Op) {
    match op
    case Create(s) => s != 0 && s !in w.sessions
    case _ => op.s in w.sessions
  }

  ghost predicate OpValid(op: Op) { op.Config? ==> op.q.Valid() }

  /** The world in which the engine starts to process for session `s`. */
  function Started(env: Env, w: World, s: int): (w': World)
    requires w.Valid() && env.Valid() && s in w.sessions
    ensures w'.Valid() && w'.sessions == w.sessions
  {
    var (keep, changed) := CheckKeep(w.keep, s, Different);
    w.(keep := keep, engine := if changed then Configured(env, w.engine, w.sessions[s]) else w.engine)
  }

  /** One call, and its output. */
  function Do(env: Env, w: World, op: Op): (r: (World, seq<Byte>))
    requires w.Valid() && env.Valid() && Enabled(w, op) && OpValid(op)
    ensures r.0.Valid()
  {
    match op
    case Create(s) => (w.(sessions := w.sessions[s := NEW]), [])
    case Destroy(s) => (w.(keep := CheckKeep(w.keep, s, Both).0, sessions := w.sessions - {s}), [])
    case Config(s, q) =>
      var (c, ok) := Prepared(w.sessions[s], q);
      (w.(keep := if ok then CheckKeep(w.keep, s, Same).0 else w.keep, sessions := w.sessions[s := c]), [])
    case ConfigOper(s, oper) =>
      var c := w.sessions[s];
      if c.mode.oper == oper then (w, [])
      else
        (w.(keep := CheckKeep(w.keep, s, Same).0,
            sessions := w.sessions[s := c.(mode := c.mode.(oper := oper), ivLast := [0, 0, 0, 0])]), [])
    case StoredKey(s, stored, map_) =>
      var c := w.sessions[s];
      (w.(keep := CheckKeep(w.keep, s, Same).0, sessions := w.sessions[s := c.(stored := c.stored || stored, map_ := map_)]), [])
    case Process(s, data) =>
      var w1 := Started(env, w, s);
      // the mode is checked only when the engine is set up
      if w.keep != s && Conflict(w.sessions[s].mode) then (w1, [])
      else
        var e := w1.engine;
        var (out, last) := env.cipher(e.mode, e.key[..KeyWords(e.mode.algo)], e.iv[..IvWords(e.mode)], data);
        (w1.(engine := e.(iv := last), sessions := w.sessions[s := w.sessions[s].(ivLast := last)]), out)
    case Refused(s) => (Started(env, w, s), [])
  }

  // ----- the reference: every session has an engine of its own -----

  /** A session as its user sees it. `chain` is the chaining value after the last data, if any; `ready` once configured. */
  datatype Ideal = Ideal(mode: Mode, key: seq<Byte>, ivInit: seq<Byte>, stored: bool, map_: int, chain: Option<seq<Word>>, ready: bool)
  {
    ghost predicate Valid() { |key| == 32 && |ivInit| == 16 && (chain.Some? ==> |chain.value| == 4) }
  }

  ghost predicate AllValid(ideals: map<int, Ideal>) { forall s :: s in ideals ==> ideals[s].Valid() }

  function IdealKey(env: Env, i: Ideal): seq<Word>
    requires i.Valid() && env.Valid()
  {
    if i.stored then env.store(i.map_)[..KeyWords(i.mode.algo)] else Words(i.key, KeyWords(i.mode.algo))
  }

  function IdealIv(i: Ideal): seq<Word>
    requires i.Valid()
  {
    if i.chain.Some? then i.chain.value[..IvWords(i.mode)] else Words(i.ivInit, IvWords(i.mode))
  }

  function IdealCipher(env: Env, i: Ideal, data: seq<Byte>): (seq<Byte>, seq<Word>)
    requires i.Valid() && env.Valid()
  {
    env.cipher(i.mode, IdealKey(env, i), IdealIv(i), data)
  }

  /** Does the driver accept the request? */
  predicate Accepts(q: Request) {
    q.work.Some? && q.algo.Some? && !(q.work.value == Ctr && (q.algo.value == Des || q.algo.value == Tdes))
  }

  function IdealDo(env: Env, ideals: map<int, Ideal>, op: Op): (r: (map<int, Ideal>, seq<Byte>))
    requires AllValid(ideals) && env.Valid() && OpValid(op) && (!op.Create? ==> op.s in ideals)
    ensures AllValid(r.0)
  {
    match op
    case Create(s) => (ideals[s := Ideal(NEW.mode, NEW.key, NEW.ivInit, false, 0, None, false)], [])
    case Destroy(s) => (ideals - {s}, [])
    case Config(s, q) =>
      if !Accepts(q) then (ideals, [])
      else
        var oper := if q.oper.Some? then q.oper.value else ideals[s].mode.oper;
        (ideals[s := Ideal(Mode(oper, q.algo.value, q.work.value), q.key, q.iv, q.stored, ideals[s].map_, None, true)], [])
    case ConfigOper(s, oper) =>
      var i := ideals[s];
      (if i.mode.oper == oper then ideals else ideals[s := i.(mode := i.mode.(oper := oper), chain := None)], [])
    case StoredKey(s, stored, map_) =>
      var i := ideals[s];
      (ideals[s := i.(stored := i.stored || stored, map_ := map_)], [])
    case Process(s, data) =>
      var (out, last) := IdealCipher(env, ideals[s], data);
      (ideals[s := ideals[s].(chain := Some(last))], out)
    case Refused(s) => (ideals, [])
  }

  // ----- the invariant -----

  /** The session has the settings its user knows of; only before it is configured may its work mode be another one. */
  ghost predicate SameSettings(c: Session, i: Ideal) {
    && c.mode == i.mode.(work := c.mode.work) && (i.ready ==> c.mode.work == i.mode.work)
    && c.key == i.key && c.ivInit == i.ivInit && c.stored == i.stored && c.map_ == i.map_
  }

  /** If the engine is set up for a ready session, it has that session's mode and key. Nothing is known while a kept
      value dangles, or of a session that reuses its address and has not been configured. */
  ghost predicate Inv(env: Env, w: World, ideals: map<int, Ideal>) {
    && w.Valid() && env.Valid() && AllValid(ideals) && w.sessions.Keys == ideals.Keys
    && forall s :: s in ideals ==> SessionOk(env, w.engine, w.keep == s, w.sessions[s], ideals[s])
  }

  ghost predicate SessionOk(env: Env, e: Engine, kept: bool, c: Session, i: Ideal)
    requires e.Valid() && c.Valid() && env.Valid()
  {
    SameSettings(c, i) && (i.ready ==> !Conflict(i.mode) && (kept ==> Agrees(env, e, c)))
  }

  /** A request that is turned down for its algorithm, after its work mode has been stored. */
  predicate HalfDone(op: Op) { op.Config? && op.q.work.Some? && op.q.algo.None? }

  /** A half-done request that changes the work mode of a configured session. */
  predicate Spoils(ideals: map<int, Ideal>, op: Op) {
    HalfDone(op) && op.s in ideals && ideals[op.s].ready && op.q.work.value != ideals[op.s].mode.work
  }

  /** A session is used only when configured, and no half-done request changes the work mode of a configured one. */
  ghost predicate Proper(ideals: map<int, Ideal>, op: Op) {
    && OpValid(op) && !Spoils(ideals, op)
    && (!op.Create? ==> op.s in ideals) && (op.Create? ==> op.s != 0 && op.s !in ideals)
    && (op.Process? || op.Refused? ==> ideals[op.s].ready)
  }

  lemma StartAgrees(env: Env, w: World, ideals: map<int, Ideal>, s: int)
    requires Inv(env, w, ideals) && s in ideals && ideals[s].ready
    ensures Agrees(env, Started(env, w, s).engine, w.sessions[s])
  {
  }

  lemma OpKeepsInv(env: Env, w: World, ideals: map<int, Ideal>, op: Op)
    requires Inv(env, w, ideals) && Proper(ideals, op)
    ensures Inv(env, Do(env, w, op).0, IdealDo(env, ideals, op).0)
  {
    var w', ideals' := Do(env, w, op).0, IdealDo(env, ideals, op).0;
    assert w'.sessions.Keys == ideals'.Keys;
    forall s | s in ideals' ensures SessionOk(env, w'.engine, w'.keep == s, w'.sessions[s], ideals'[s]) {
      if s == op.s {
        OwnOk(env, w, ideals, op);
      } else {
        OtherOk(env, w, ideals, op, s);
      }
    }
  }

  lemma OtherOk(env: Env, w: World, ideals: map<int, Ideal>, op: Op, s: int)
    requires Inv(env, w, ideals) && Proper(ideals, op) && s != op.s && s in ideals
    ensures var w', ideals' := Do(env, w, op).0, IdealDo(env, ideals, op).0;
            s in w'.sessions && s in ideals' && SessionOk(env, w'.engine, w'.keep == s, w'.sessions[s], ideals'[s])
  {
    assert SessionOk(env, w.engine, w.keep == s, w.sessions[s], ideals[s]);
  }

  lemma OwnOk(env: Env, w: World, ideals: map<int, Ideal>, op: Op)
    requires Inv(env, w, ideals) && Proper(ideals, op) && !op.Destroy?
    ensures var w', ideals' := Do(env, w, op).0, IdealDo(env, ideals, op).0;
            op.s in w'.sessions && op.s in ideals' && SessionOk(env, w'.engine, w'.keep == op.s, w'.sessions[op.s], ideals'[op.s])
  {
    if !op.Create? {
      assert SessionOk(env, w.engine, w.keep == op.s, w.sessions[op.s], ideals[op.s]);
    }
    if op.Process? || op.Refused? {
      StartAgrees(env, w, ideals, op.s);
    }
  }

  // ----- chaining values -----

  /** Every ready session will go on from the chaining value its user knows of. */
  ghost predicate InvIv(env: Env, w: World, ideals: map<int, Ideal>)
    requires Inv(env, w, ideals)
  {
    forall s :: s in ideals && ideals[s].ready ==> IvOk(w.sessions[s], ideals[s], w.keep == s, w.engine)
  }

  ghost predicate IvOk(c: Session, i: Ideal, kept: bool, e: Engine)
    requires c.Valid() && i.Valid() && e.Valid()
  {
    WantedIv(c) == IdealIv(i) && (kept ==> e.iv[..IvWords(i.mode)] == IdealIv(i))
  }

  /** The data does not leave an all-zero chaining value, unless the initial one is all zero too. */
  ghost predicate NoZeroIv(env: Env, ideals: map<int, Ideal>, op: Op)
    requires AllValid(ideals) && env.Valid() && Proper(ideals, op)
  {
    op.Process? ==> LeavesIv(ideals[op.s], IdealCipher(env, ideals[op.s], op.data).1)
  }

  predicate LeavesIv(i: Ideal, last: seq<Word>)
    requires |i.ivInit| == 16
  {
    |last| == 4 && (NonZero(last[..IvWords(i.mode)]) || !NonZero(Words(i.ivInit, IvWords(i.mode))))
  }

  lemma ProcessRefines(env: Env, w: World, ideals: map<int, Ideal>, op: Op)
    requires Inv(env, w, ideals) && InvIv(env, w, ideals) && Proper(ideals, op) && op.Process?
    ensures Do(env, w, op).1 == IdealDo(env, ideals, op).1
    ensures Do(env, w, op).0.engine.iv == IdealCipher(env, ideals[op.s], op.data).1
    ensures Do(env, w, op).0.sessions[op.s] == w.sessions[op.s].(ivLast := Do(env, w, op).0.engine.iv)
  {
    var s := op.s;
    StartAgrees(env, w, ideals, s);
    var e, i := Started(env, w, s).engine, ideals[s];
    assert e.mode == i.mode && e.key[..KeyWords(e.mode.algo)] == IdealKey(env, i);
    assert e.iv[..IvWords(e.mode)] == IdealIv(i);
  }

  /** Sessions that a call does not concern. */
  lemma OthersIv(env: Env, w: World, ideals: map<int, Ideal>, op: Op, s: int)
    requires Inv(env, w, ideals) && InvIv(env, w, ideals) && Proper(ideals, op) && s != op.s && s in ideals && ideals[s].ready
    ensures var w', ideals' := Do(env, w, op).0, IdealDo(env, ideals, op).0;
            && s in w'.sessions && s in ideals' && w'.sessions[s] == w.sessions[s] && ideals'[s] == ideals[s]
            && IvOk(w'.sessions[s], ideals'[s], w'.keep == s, w'.engine)
  {
    assert IvOk(w.sessions[s], ideals[s], w.keep == s, w.engine);
  }

  /** The session concerned, when the call starts a new chain or leaves it alone. */
  lemma OwnIv(env: Env, w: World, ideals: map<int, Ideal>, op: Op)
    requires Inv(env, w, ideals) && InvIv(env, w, ideals) && Proper(ideals, op) && !op.Process?
    requires var ideals' := IdealDo(env, ideals, op).0; op.s in ideals' && ideals'[op.s].ready
    ensures var w', i := Do(env, w, op).0, IdealDo(env, ideals, op).0[op.s];
            op.s in w'.sessions && IvOk(w'.sessions[op.s], i, w'.keep == op.s, w'.engine)
  {
    var s := op.s;
    var c, c' := w.sessions[s], Do(env, w, op).0.sessions[s];
    match op
    case Config(_, q) =>
      assert Accepts(q) ==> Prepared(c, q).1;
      if Accepts(q) { FreshIv(c'); } else { assert c' == c; }
    case ConfigOper(_, oper) =>
      if c.mode.oper != oper { FreshIv(c'); }
    case StoredKey(_, _, _) =>
      assert WantedIv(c') == WantedIv(c);
    case Refused(_) =>
      var w' := Started(env, w, s);
      assert c' == c;
      assert w.keep != s ==> w'.engine.iv[..IvWords(c.mode)] == WantedIv(c);
  }

  lemma FreshIv(c: Session)
    requires c.Valid() && c.ivLast == [0, 0, 0, 0]
    ensures WantedIv(c) == Words(c.ivInit, IvWords(c.mode))
  {
  }

  lemma ProcessIv(env: Env, w: World, ideals: map<int, Ideal>, op: Op)
    requires Inv(env, w, ideals) && InvIv(env, w, ideals) && Proper(ideals, op) && op.Process? && NoZeroIv(env, ideals, op)
    ensures var w', i := Do(env, w, op).0, IdealDo(env, ideals, op).0[op.s];
            IvOk(w'.sessions[op.s], i, w'.keep == op.s, w'.engine)
  {
    ProcessRefines(env, w, ideals, op);
    ZeroIvExact(w.sessions[op.s], IdealCipher(env, ideals[op.s], op.data).1);
  }

  /** Every call gives the output of the reference, and keeps the session and the reference together. */
  lemma OpRefines(env: Env, w: World, ideals: map<int, Ideal>, op: Op)
    requires Inv(env, w, ideals) && InvIv(env, w, ideals) && Proper(ideals, op) && NoZeroIv(env, ideals, op)
    ensures Do(env, w, op).1 == IdealDo(env, ideals, op).1
    ensures Inv(env, Do(env, w, op).0, IdealDo(env, ideals, op).0)
    ensures InvIv(env, Do(env, w, op).0, IdealDo(env, ideals, op).0)
  {
    OpKeepsInv(env, w, ideals, op);
    if op.Process? {
      ProcessRefines(env, w, ideals, op);
    }
    var w', ideals' := Do(env, w, op).0, IdealDo(env, ideals, op).0;
    forall s | s in ideals' && ideals'[s].ready ensures IvOk(w'.sessions[s], ideals'[s], w'.keep == s, w'.engine) {
      if s != op.s {
        OthersIv(env, w, ideals, op, s);
      } else if op.Process? {
        ProcessIv(env, w, ideals, op);
      } else {
        OwnIv(env, w, ideals, op);
      }
    }
  }

  // ----- runs -----

  /** The world after a run, as far as its calls can be made. */
  function Run(env: Env, w: World, ops: seq<Op>): (r: (World, seq<seq<Byte>>))
    requires w.Valid() && env.Valid()
    ensures r.0.Valid()
    decreases ops
  {
    if ops == [] || !Enabled(w, ops[0]) || !OpOk(ops[0]) then (w, [])
    else
      var (w1, out) := Do(env, w, ops[0]);
      var (w2, outs) := Run(env, w1, ops[1..]);
      (w2, [out] + outs)
  }

  predicate OpOk(op: Op) { op.Config? ==> |op.q.key| == 32 && |op.q.iv| == 16 }

  function IdealRun(env: Env, ideals: map<int, Ideal>, ops: seq<Op>): (r: (map<int, Ideal>, seq<seq<Byte>>))
    requires AllValid(ideals) && env.Valid()
    ensures AllValid(r.0)
    decreases ops
  {
    if ops == [] || !OpOk(ops[0]) || (!ops[0].Create? && ops[0].s !in ideals) then (ideals, [])
    else
      var (ideals1, out) := IdealDo(env, ideals, ops[0]);
      var (ideals2, outs) := IdealRun(env, ideals1, ops[1..]);
      (ideals2, [out] + outs)
  }

  /** Every call of the run is proper. */
  ghost predicate ProperRun(env: Env, ideals: map<int, Ideal>, ops: seq<Op>)
    requires AllValid(ideals) && env.Valid()
    decreases ops
  {
    ops == [] || (Proper(ideals, ops[0]) && ProperRun(env, IdealDo(env, ideals, ops[0]).0, ops[1..]))
  }

  /** No data of the run leaves an all-zero chaining value. */
  ghost predicate NoZeroRun(env: Env, ideals: map<int, Ideal>, ops: seq<Op>)
    requires AllValid(ideals) && env.Valid() && ProperRun(env, ideals, ops)
    decreases ops
  {
    ops == [] || (NoZeroIv(env, ideals, ops[0]) && NoZeroRun(env, IdealDo(env, ideals, ops[0]).0, ops[1..]))
  }

  lemma {:induction false} RunKeepsInv(env: Env, w: World, ideals: map<int, Ideal>, ops: seq<Op>)
    requires Inv(env, w, ideals) && ProperRun(env, ideals, ops)
    ensures Inv(env, Run(env, w, ops).0, IdealRun(env, ideals, ops).0)
    decreases ops
  {
    if ops != [] {
      OpKeepsInv(env, w, ideals, ops[0]);
      RunKeepsInv(env, Do(env, w, ops[0]).0, IdealDo(env, ideals, ops[0]).0, ops[1..]);
    }
  }

  /** No session exists and none is kept; the registers hold anything. */
  ghost predicate Initial(w: World) { w.engine.Valid() && w.keep == 0 && w.sessions == map[] }

  /** After any proper run, a process call on a configured session starts with the engine in the mode and with the key
      its user last asked for: even when a kept value dangled, or an address was reused. */
  lemma EngineSetUp(env: Env, w: World, ops: seq<Op>, s: int)
    requires Initial(w) && env.Valid() && ProperRun(env, map[], ops)
    requires s in IdealRun(env, map[], ops).0 && IdealRun(env, map[], ops).0[s].ready
    ensures var w', i := Run(env, w, ops).0, IdealRun(env, map[], ops).0[s];
            && s in w'.sessions
            && Started(env, w', s).engine.mode == i.mode
            && Started(env, w', s).engine.key[..KeyWords(i.mode.algo)] == IdealKey(env, i)
  {
    RunKeepsInv(env, w, map[], ops);
    StartAgrees(env, Run(env, w, ops).0, IdealRun(env, map[], ops).0, s);
  }

  lemma {:induction false} RunRefines(env: Env, w: World, ideals: map<int, Ideal>, ops: seq<Op>)
    requires Inv(env, w, ideals) && InvIv(env, w, ideals) && ProperRun(env, ideals, ops) && NoZeroRun(env, ideals, ops)
    ensures Run(env, w, ops).1 == IdealRun(env, ideals, ops).1
    decreases ops
  {
    if ops != [] {
      OpRefines(env, w, ideals, ops[0]);
      RunRefines(env, Do(env, w, ops[0]).0, IdealDo(env, ideals, ops[0]).0, ops[1..]);
    }
  }

  /** The engine, shared and cached, gives every session the outputs of an engine of its own. */
  lemma SharingIsInvisible(env: Env, w: World, ops: seq<Op>)
    requires Initial(w) && env.Valid() && ProperRun(env, map[], ops) && NoZeroRun(env, map[], ops)
    ensures Run(env, w, ops).1 == IdealRun(env, map[], ops).1
  {
    RunRefines(env, w, map[], ops);
  }

  // ----- the two conditions are needed -----

  /** The engine has the mode and key the user of a session last had accepted. */
  ghost predicate HasAccepted(env: Env, e: Engine, i: Ideal)
    requires e.Valid() && i.Valid() && env.Valid()
  {
    e.mode == i.mode && e.key[..KeyWords(i.mode.algo)] == IdealKey(env, i)
  }

  /** After a half-done request on a configured session, its next process call starts with what was last accepted exactly
      if the engine is still set up for the session, or the request asked for the same work mode. */
  lemma HalfDoneExact(env: Env, w: World, ideals: map<int, Ideal>, op: Op)
    requires Inv(env, w, ideals) && OpValid(op) && HalfDone(op) && op.s in ideals && ideals[op.s].ready
    ensures HasAccepted(env, Started(env, Do(env, w, op).0, op.s).engine, ideals[op.s]) <==>
            w.keep == op.s || op.q.work.value == ideals[op.s].mode.work
  {
    StartAgrees(env, w, ideals, op.s);
    if op.q.work.value == ideals[op.s].mode.work {
      assert Do(env, w, op).0 == w;
    }
  }

  /** In these cases the call also gives the output of the reference. */
  lemma HalfDoneOutput(env: Env, w: World, ideals: map<int, Ideal>, op: Op, data: seq<Byte>)
    requires Inv(env, w, ideals) && InvIv(env, w, ideals) && OpValid(op) && HalfDone(op) && op.s in ideals && ideals[op.s].ready
    requires w.keep == op.s || op.q.work.value == ideals[op.s].mode.work
    ensures Do(env, Do(env, w, op).0, Process(op.s, data)).1 == IdealDo(env, ideals, Process(op.s, data)).1
  {
    ProcessRefines(env, w, ideals, Process(op.s, data));
    if op.q.work.value == ideals[op.s].mode.work {
      assert Do(env, w, op).0 == w;
    } else {
      KeptOutput(env, w, Do(env, w, op).0, op.s, data);
    }
  }

  /** The output for a kept session depends on the engine only. */
  lemma KeptOutput(env: Env, w: World, w': World, s: int, data: seq<Byte>)
    requires w.Valid() && w'.Valid() && env.Valid() && s in w.sessions && s in w'.sessions
    requires w.keep == w'.keep == s && w'.engine == w.engine
    ensures Do(env, w', Process(s, data)).1 == Do(env, w, Process(s, data)).1
  {
    assert Started(env, w, s).engine == w.engine && Started(env, w', s).engine == w.engine;
  }

  /** A cipher whose output tells whether the work mode is ECB. */
  const TELLING := Env((m: Mode, k: seq<Word>, v: seq<Word>, d: seq<Byte>) => ([if m.work == Ecb then 0 else 1], [1, 1, 1, 1]),
                       (x: int) => [0, 0, 0, 0, 0, 0, 0, 0])

  /** A session, configured for ECB, that asks for CBC with an unknown algorithm and is turned down. */
  function HalfDoneRun(): (ops: seq<Op>) {
    var q := Request(Some(Encrypt), Some(Aes128), Some(Ecb), Zeros(32), Zeros(16), false);
    [Create(1), Config(1, q), Config(1, q.(algo := None, work := Some(Cbc))), Process(1, [])]
  }

  lemma HalfDoneSteps()
    ensures var ops := HalfDoneRun();
            |ops| == 4 && ops[1..][0] == ops[1] && ops[1..][1..] == ops[2..] && ops[2..][0] == ops[2] && ops[2..][1..] == [ops[3]]
  {
  }

  lemma HalfDoneDriver(w: World)
    requires Initial(w)
    ensures TELLING.Valid() && w.Valid() && Run(TELLING, w, HalfDoneRun()).1 == [[], [], [], [1]]
  {
    hide Run, Do, Enabled;
    var ops := HalfDoneRun();
    HalfDoneSteps();
    var w1, w2, w3 := HalfDoneWorlds(w);
    RunLast(TELLING, w3, ops[3]);
    RunFirst(TELLING, w2, ops[2..]);
    RunFirst(TELLING, w1, ops[1..]);
    RunFirst(TELLING, w, ops);
  }

  /** The worlds of that run. */
  lemma HalfDoneWorlds(w: World) returns (w1: World, w2: World, w3: World)
    requires Initial(w)
    ensures TELLING.Valid() && w.Valid() && w1.Valid() && w2.Valid() && w3.Valid()
    ensures var ops := HalfDoneRun();
            && Enabled(w, ops[0]) && Do(TELLING, w, ops[0]) == (w1, []) && Enabled(w1, ops[1]) && Do(TELLING, w1, ops[1]) == (w2, [])
            && Enabled(w2, ops[2]) && Do(TELLING, w2, ops[2]) == (w3, []) && Enabled(w3, ops[3]) && Do(TELLING, w3, ops[3]).1 == [1]
  {
    var ops := HalfDoneRun();
    w1 := Do(TELLING, w, ops[0]).0;
    assert w1 == w.(sessions := map[1 := NEW]);
    w2 := Do(TELLING, w1, ops[1]).0;
    assert w2.keep == 0 && w2.sessions.Keys == {1} && w2.sessions[1].mode == Mode(Encrypt, Aes128, Ecb);
    w3 := Do(TELLING, w2, ops[2]).0;
    assert w3.keep == 0 && w3.sessions.Keys == {1} && w3.sessions[1].mode == Mode(Encrypt, Aes128, Cbc);
    TellingOutput(w3, 1);
  }

  lemma TellingOutput(w: World, s: int)
    requires w.Valid() && s in w.sessions && w.keep != s && !Conflict(w.sessions[s].mode)
    ensures TELLING.Valid() && Do(TELLING, w, Process(s, [])).1 == [if w.sessions[s].mode.work == Ecb then 0 else 1]
  {
  }

  lemma RunFirst(env: Env, w: World, ops: seq<Op>)
    requires w.Valid() && env.Valid() && ops != [] && Enabled(w, ops[0]) && OpOk(ops[0])
    ensures Run(env, w, ops).1 == [Do(env, w, ops[0]).1] + Run(env, Do(env, w, ops[0]).0, ops[1..]).1
  {
  }

  lemma RunLast(env: Env, w: World, op: Op)
    requires w.Valid() && env.Valid() && Enabled(w, op) && OpOk(op)
    ensures Run(env, w, [op]).1 == [Do(env, w, op).1]
  {
    assert [op][1..] == [];
  }

  lemma HalfDoneReference(none: map<int, Ideal>)
    requires none == map[]
    ensures TELLING.Valid() && IdealRun(TELLING, none, HalfDoneRun()).1 == [[], [], [], [0]]
    ensures ProperRun(TELLING, none, HalfDoneRun()[..2])
  {
    var ops := HalfDoneRun();
    HalfDoneSteps();
    var i1 := IdealDo(TELLING, none, ops[0]).0;
    var i2 := IdealDo(TELLING, i1, ops[1]).0;
    assert i2[1].mode == Mode(Encrypt, Aes128, Ecb);
    assert IdealDo(TELLING, i2, ops[3]).1 == [0];
    assert IdealRun(TELLING, i2, [ops[3]]).1 == [[0]] by { assert [ops[3]][1..] == []; }
    assert IdealRun(TELLING, i2, ops[2..]).1 == [[], [0]];
    assert IdealRun(TELLING, i1, ops[1..]).1 == [[], [], [0]];
    assert ops[..2][1..] == [ops[1]] && [ops[1]][1..] == [];
    assert ProperRun(TELLING, i1, [ops[1]]);
  }

  /** Without the condition on half-done requests sharing is not invisible: the run's outputs differ from the reference. */
  lemma HalfDoneShows(w: World)
    requires Initial(w)
    ensures TELLING.Valid() && w.Valid() && ProperRun(TELLING, map[], HalfDoneRun()[..2])
    ensures Run(TELLING, w, HalfDoneRun()).1 != IdealRun(TELLING, map[], HalfDoneRun()).1
  {
    HalfDoneDriver(w);
    HalfDoneReference(map[]);
    assert [1] != [0];
    assert Run(TELLING, w, HalfDoneRun()).1[3] == [1];
  }

  /** When another session takes the engine over, a session goes on from the value its data left exactly when that is
      not all zero, or the initial value is all zero too. */
  lemma ZeroIvExact(c: Session, last: seq<Word>)
    requires c.Valid() && |last| == 4
    ensures WantedIv(c.(ivLast := last)) == last[..IvWords(c.mode)] <==>
            (NonZero(last[..IvWords(c.mode)]) || !NonZero(Words(c.ivInit, IvWords(c.mode))))
  {
    var n := IvWords(c.mode);
    if !NonZero(last[..n]) && !NonZero(Words(c.ivInit, n)) {
      assert last[..n] == Words(c.ivInit, n);
    }
  }

  /** A session whose data left the chaining value `last`, and whose engine was taken over since, goes on from the right
      value exactly under that condition. */
  lemma TakenOverExact(env: Env, w: World, ideals: map<int, Ideal>, s: int, last: seq<Word>)
    requires Inv(env, w, ideals) && s in ideals && ideals[s].ready && w.keep != s
    requires |last| == 4 && w.sessions[s].ivLast == last && ideals[s].chain == Some(last)
    ensures var n, i := IvWords(ideals[s].mode), ideals[s];
            Started(env, w, s).engine.iv[..n] == IdealIv(i) <==> (NonZero(last[..n]) || !NonZero(Words(i.ivInit, n)))
  {
    var c := w.sessions[s];
    ZeroIvExact(c, last);
    assert c.(ivLast := last) == c;
    assert Started(env, w, s).engine.iv[..IvWords(c.mode)] == WantedIv(c);
  }
}
