/** The driver of the AES/DES engine: calls that rewrite sessions, the kept session and the registers. */
module CesaDriver {
  import opened Common
  import S = CesaSessions

  class Driver {
    const env: S.Env
    /** The control, key and chaining value registers. */
    var mode: S.Mode
    const key: array<S.Word>
    const iv: array<S.Word>
    var keep: int
    var sessions: map<int, S.Session>

    ghost function Abs(): S.World
      reads this, key, iv
    {
      S.World(S.Engine(mode, key[..], iv[..]), keep, sessions)
    }

    ghost predicate Valid()
      reads this, key, iv
    {
      env.Valid() && key != iv && Abs().Valid()
    }

    constructor (env: S.Env, mode: S.Mode)
      requires env.Valid()
      ensures Valid() && S.Initial(Abs()) && this.env == env && fresh(key) && fresh(iv)
    {
      this.env, this.mode, keep, sessions := env, mode, 0, map[];
      key, iv := new S.Word[8](_ => 0), new S.Word[4](_ => 0);
    }

    /** `drv_cesa_check_keep`. */
    method CheckKeep(s: int, ask: S.Ask) returns (changed: bool)
      modifies this`keep
      ensures (keep, changed) == S.CheckKeep(old(keep), s, ask)
    {
      if ask == S.Same && keep == s {
        keep := 0;
        return true;
      }
      if ask == S.Different && keep != s {
        keep := s;
        return true;
      }
      if ask == S.Both {
        keep := if keep == s then 0 else s;
        return true;
      }
      changed := false;
    }

    /** The key registers: words of the session's key, swapped, or the key store's doing. */
    method WriteKey(c: S.Session)
      requires Valid() && c.Valid()
      modifies key
      ensures key[..] == S.Configured(env, old(Abs().engine), c).key
    {
      if c.stored {
        var k := env.store(c.map_);
        for i := 0 to 8
          invariant forall j :: 0 <= j < i ==> key[j] == k[j]
        {
          key[i] := k[i];
        }
      } else {
        var n := S.KeyWords(c.mode.algo);
        for i := 0 to n
          invariant forall j :: 0 <= j < i ==> key[j] == S.Words(c.key, n)[j]
          invariant forall j :: i <= j < 8 ==> key[j] == old(key[j])
        {
          key[i] := S.SwappedWord(c.key[4 * i], c.key[4 * i + 1], c.key[4 * i + 2], c.key[4 * i + 3]);
        }
      }
    }

    /** The chaining value registers: the saved value if any of it is not zero, else the initial one, swapped. */
    method WriteIv(c: S.Session)
      requires Valid() && c.Valid()
      modifies iv
      ensures iv[..] == S.Configured(env, old(Abs().engine), c).iv
    {
      var n := S.IvWords(c.mode);
      var i := 0;
      while i < n && c.ivLast[i] == 0
        invariant 0 <= i <= n && forall j :: 0 <= j < i ==> c.ivLast[j] == 0
      {
        i := i + 1;
      }
      assert i < n ==> c.ivLast[..n][i] != 0;
      var saved := i < n;
      assert saved == S.NonZero(c.ivLast[..n]);
      ghost var v := S.WantedIv(c);
      for k := 0 to n
        invariant forall j :: 0 <= j < k ==> iv[j] == v[j]
        invariant forall j :: k <= j < 4 ==> iv[j] == old(iv[j])
      {
        iv[k] := if saved then c.ivLast[k] else S.SwappedWord(c.ivInit[4 * k], c.ivInit[4 * k + 1], c.ivInit[4 * k + 2], c.ivInit[4 * k + 3]);
      }
    }

    /** `hw_cesa_ades_config`: the registers are written even if the mode is then found to be impossible. */
    method HwConfig(s: int) returns (ok: bool)
      requires Valid() && s in sessions
      modifies this`mode, key, iv
      ensures Valid() && Abs() == old(Abs()).(engine := S.Configured(env, old(Abs().engine), sessions[s]))
      ensures ok == !S.Conflict(sessions[s].mode)
    {
      var c := sessions[s];
      mode := c.mode;
      WriteKey(c);
      WriteIv(c);
      ok := !S.Conflict(c.mode);
    }

    /** `drv_cesa_ades_create`, with the address the allocator chose. */
    method Create(s: int)
      requires Valid() && S.Enabled(Abs(), S.Create(s))
      modifies this`sessions
      ensures Valid() && Abs() == S.Do(env, old(Abs()), S.Create(s)).0
    {
      sessions := sessions[s := S.NEW];
    }

    /** `drv_cesa_ades_destroy`: the kept value is left pointing to the session unless it did already. */
    method Destroy(s: int)
      requires Valid() && S.Enabled(Abs(), S.Destroy(s))
      modifies this`keep, this`sessions
      ensures Valid() && Abs() == S.Do(env, old(Abs()), S.Destroy(s)).0
      ensures keep == if old(keep) == s then 0 else s
    {
      var _ := CheckKeep(s, S.Both);
      sessions := sessions - {s};
    }

    /** `hw_cesa_ades_config_data_prepare`. */
    method Prepare(c0: S.Session, q: S.Request) returns (c: S.Session, ok: bool)
      requires c0.Valid() && q.Valid()
      ensures (c, ok) == S.Prepared(c0, q) && ok == S.Accepts(q)
    {
      c, ok := c0, false;
      if q.work.None? || (q.work.value == S.Ctr && (q.algo == Some(S.Des) || q.algo == Some(S.Tdes))) {
        return;
      }
      c := c.(mode := c.mode.(work := q.work.value));
      if q.algo.None? {
        return;
      }
      c := c.(mode := c.mode.(algo := q.algo.value));
      if q.oper.Some? {
        c := c.(mode := c.mode.(oper := q.oper.value));
      }
      c := c.(key := q.key, ivInit := q.iv, ivLast := [0, 0, 0, 0], stored := q.stored);
      ok := true;
    }

    /** `drv_cesa_ades_config`. */
    method Config(s: int, q: S.Request) returns (ok: bool)
      requires Valid() && S.Enabled(Abs(), S.Config(s, q)) && q.Valid()
      modifies this`keep, this`sessions
      ensures Valid() && Abs() == S.Do(env, old(Abs()), S.Config(s, q)).0 && ok == S.Accepts(q)
    {
      var c;
      c, ok := Prepare(sessions[s], q);
      sessions := sessions[s := c];
      if ok {
        var _ := CheckKeep(s, S.Same);
      }
    }

    /** `drv_cesa_ades_config_oper`. */
    method ConfigOper(s: int, oper: S.Oper)
      requires Valid() && S.Enabled(Abs(), S.ConfigOper(s, oper))
      modifies this`keep, this`sessions
      ensures Valid() && Abs() == S.Do(env, old(Abs()), S.ConfigOper(s, oper)).0
    {
      var c := sessions[s];
      if c.mode.oper != oper {
        c := c.(mode := c.mode.(oper := oper));
        c := c.(ivLast := [0, 0, 0, 0]);
        sessions := sessions[s := c];
        var _ := CheckKeep(s, S.Same);
      }
    }

    /** `drv_cesa_ades_efuse_key`. */
    method StoredKey(s: int, stored: bool, map_: int)
      requires Valid() && S.Enabled(Abs(), S.StoredKey(s, stored, map_))
      modifies this`keep, this`sessions
      ensures Valid() && Abs() == S.Do(env, old(Abs()), S.StoredKey(s, stored, map_)).0
    {
      var c := sessions[s];
      sessions := sessions[s := c.(stored := c.stored || stored, map_ := map_)];
      var _ := CheckKeep(s, S.Same);
    }

    /** The set-up at the head of `drv_cesa_ades_process`. */
    method Start(s: int) returns (ok: bool)
      requires Valid() && s in sessions
      modifies this`keep, this`mode, key, iv
      ensures Valid() && Abs() == S.Started(env, old(Abs()), s)
      ensures ok == !(old(keep) != s && S.Conflict(sessions[s].mode))
    {
      var changed := CheckKeep(s, S.Different);
      ok := true;
      if changed {
        ok := HwConfig(s);
      }
    }

    /** `drv_cesa_ades_process`; `accepted` tells whether the address and the length are acceptable. */
    method Process(s: int, data: seq<S.Byte>, accepted: bool) returns (out: seq<S.Byte>)
      requires Valid() && s in sessions
      modifies this, key, iv
      ensures Valid() && (Abs(), out) == S.Do(env, old(Abs()), if accepted then S.Process(s, data) else S.Refused(s))
    {
      var ok := Start(s);
      out := [];
      if !ok || !accepted {
        return;
      }
      out := RunEngine(data);
      SaveLastIv(s);
    }

    /** The engine at work. */
    method RunEngine(data: seq<S.Byte>) returns (out: seq<S.Byte>)
      requires Valid()
      modifies iv
      ensures Valid() && Abs() == old(Abs()).(engine := old(Abs().engine).(iv := iv[..]))
      ensures (out, iv[..]) == env.cipher(mode, old(key[..S.KeyWords(mode.algo)]), old(iv[..S.IvWords(mode)]), data)
    {
      var r := env.cipher(mode, key[..S.KeyWords(mode.algo)], iv[..S.IvWords(mode)], data);
      out := r.0;
      iv[0], iv[1], iv[2], iv[3] := r.1[0], r.1[1], r.1[2], r.1[3];
      assert iv[..] == r.1;
    }

    /** `hw_cesa_ades_save_lastiv`. */
    method SaveLastIv(s: int)
      requires Valid() && s in sessions
      modifies this`sessions
      ensures Valid() && Abs() == old(Abs()).(sessions := old(sessions)[s := old(sessions)[s].(ivLast := iv[..])])
    {
      sessions := sessions[s := sessions[s].(ivLast := iv[..])];
    }
  }
}
