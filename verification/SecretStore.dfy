/** The secret store: built-in values encrypted with data keys, data keys wrapped by the master key, a cache
    of unwrapped data keys, and the master key's rotation; and secrets kept in an external store.

    Fernet is symbolic: a token opens under the key it was made with and no other, to what was encrypted. */
module SecretStore {
  import opened Wrappers
  import opened Text
  import opened Digits

  /** A Fernet key: derived from the master key's text, or a data key's own bytes. */
  datatype Key = Master(text: string) | Data(bytes: string)

  datatype Token = Token(key: Key, plain: string, salt: nat) | Garbage(raw: string)

  /** None is InvalidToken. */
  function Decrypt(k: Key, t: Token): Option<string> {
    if t.Token? && t.key == k then Some(t.plain) else None
  }

  method Encrypt(k: Key, plain: string) returns (t: Token)
    ensures t.Token? && t.key == k && t.plain == plain
  {
    var salt: nat := *;
    t := Token(k, plain, salt);
  }

  /** A stored value: "v2:<data key id>:<token>", something else that starts with "v2:", or a token of the
      master key itself, from before data keys. */
  datatype Stored = V2(id: int, token: Token) | V2Damaged(raw: string) | Direct(token: Token)

  datatype KeyRow = KeyRow(wrapped: Token, active: bool)

  datatype SecretRow = SecretRow(value: Stored, store: string)

  datatype Db = Db(keys: map<int, KeyRow>, secrets: map<string, SecretRow>)

  function Unwrap(master: Key, wrapped: Token): Option<Key> {
    var dek := Decrypt(master, wrapped);
    if dek.Some? then Some(Data(dek.value)) else None
  }

  /** The data key with an id: there is no such row, its wrapping doesn't open, or here it is. */
  datatype Lookup = NoRow | DoesNotOpen | Is(key: Key)

  function FreshLookup(keys: map<int, KeyRow>, master: Key, id: int): Lookup {
    if id !in keys then NoRow
    else
      var k := Unwrap(master, keys[id].wrapped);
      if k == None then DoesNotOpen else Is(k.value)
  }

  function ReadValue(keys: map<int, KeyRow>, master: Key, v: Stored): Option<string> {
    match v
    case V2(id, token) =>
      var k := FreshLookup(keys, master, id);
      if k.Is? then Decrypt(k.key, token) else None
    case V2Damaged(_) => None
    case Direct(token) => Decrypt(master, token)
  }

  /** What the external stores hold, by store and secret. */
  type Elsewhere = map<(string, string), string>

  /** What a secret reads as, unwrapping its data key anew or asking its store. */
  function Read(db: Db, ext: Elsewhere, master: Key, name: string): Option<string> {
    if name !in db.secrets then None
    else
      var row := db.secrets[name];
      if row.store == "builtin" then ReadValue(db.keys, master, row.value)
      else if (row.store, name) in ext then Some(ext[(row.store, name)])
      else None
  }

  // --- where a new secret goes --------------------------------------------------------------

  /** `pinned`: secrets needed to reach the other stores, or too short-lived to send there. */
  predicate Pinned(name: string) {
    "stores/" <= name || "elevated/" <= name || "job/" <= name
  }

  /** `default_store`: `here` is the store most of the environment's secrets are in, if it has any. */
  function DefaultStore(name: string, here: Option<string>, setting: string): string {
    if Pinned(name) || !("environment/" <= name) then "builtin"
    else
      var parts := Split(name, '/');
      if |parts| > 2 && parts[1] != "" && AllDigits(parts[1]) && here.Some? then here.value else setting
  }

  /** Pinned secrets, and all that aren't an environment's, are built in. */
  predicate PinnedInside(db: Db) {
    forall n :: n in db.secrets && (Pinned(n) || !("environment/" <= n)) ==> db.secrets[n].store == "builtin"
  }

  /** The names of an environment's secrets start so. */
  function Folder(env: nat): string {
    "environment/" + Dec(env) + "/"
  }

  ghost function InStore(db: Db, env: nat, store: string): set<string> {
    set n | n in db.secrets && Folder(env) <= n && db.secrets[n].store == store
  }

  /** `env_store`: a store that no other has more of the environment's secrets than, if it has any; of several
      the first by name, which isn't modelled. */
  ghost predicate IsEnvStore(db: Db, env: nat, here: Option<string>) {
    match here
    case None => forall n :: n in db.secrets ==> !(Folder(env) <= n)
    case Some(store) => InStore(db, env, store) != {} && forall t :: |InStore(db, env, t)| <= |InStore(db, env, store)|
  }

  /** All of the environment's secrets are in one store. */
  ghost predicate OnePlace(db: Db, env: nat) {
    forall m, n :: m in db.secrets && n in db.secrets && Folder(env) <= m && Folder(env) <= n ==>
      db.secrets[m].store == db.secrets[n].store
  }

  lemma SplitTwo(a: string, b: string, rest: string)
    requires '/' !in a && '/' !in b
    ensures var s := a + "/" + b + "/" + rest; |Split(s, '/')| >= 3 && Split(s, '/')[1] == b && a + "/" <= s
  {
    hide Split;
    SplitPart(b, '/', rest);
    SplitPart(a, '/', b + "/" + rest);
    assert a + "/" + b + "/" + rest == a + ['/'] + (b + ['/'] + rest);
  }

  /** A new secret of an environment joins the rest of that environment's, wherever the setting says that the first
      one goes; nothing pinned is an environment's. */
  lemma NewSecretJoins(env: nat, rest: string, here: Option<string>, setting: string)
    ensures DefaultStore(Folder(env) + rest, here, setting) == if here.Some? then here.value else setting
    ensures !Pinned(Folder(env) + rest)
  {
    hide Split, Dec;
    var d := Dec(env);
    assert '/' !in d && '/' !in "environment";
    SplitTwo("environment", d, rest);
    assert Folder(env) + rest == "environment" + "/" + d + "/" + rest;
    assert (Folder(env) + rest)[0] == 'e' && (Folder(env) + rest)[1] == 'n';
  }

  /** In a folder of environment/ whose name is a number. */
  ghost predicate InFolder(name: string) {
    exists d, rest :: d != "" && AllDigits(d) && name == "environment" + "/" + d + "/" + rest
  }

  /** Exactly where a new secret goes: outside environment/ it is built in; in a numbered folder of it, it joins
      what is there, and elsewhere in it, or with nothing there, it goes where the setting says. */
  lemma NewSecretGoes(name: string, here: Option<string>, setting: string)
    ensures DefaultStore(name, here, setting)
            == if !("environment/" <= name) then "builtin"
               else if InFolder(name) && here.Some? then here.value
               else setting
  {
    hide Split, Join;
    if "environment/" <= name {
      assert name[0] == 'e' && name[1] == 'n';
      var parts := Split(name, '/');
      if d, rest :| d != "" && AllDigits(d) && name == "environment" + "/" + d + "/" + rest {
        assert '/' !in d && '/' !in "environment";
        SplitTwo("environment", d, rest);
      }
      if |parts| > 2 {
        FolderOf(name);
        assert parts[1] != "" && AllDigits(parts[1]) ==> InFolder(name);
      }
    }
  }

  lemma OthersBuiltIn(name: string, here: Option<string>, setting: string)
    ensures Pinned(name) || !("environment/" <= name) ==> DefaultStore(name, here, setting) == "builtin"
  {
  }

  lemma FolderOf(name: string)
    requires "environment/" <= name && |Split(name, '/')| > 2
    ensures var parts := Split(name, '/'); name == "environment" + "/" + parts[1] + "/" + Join(parts[2..], '/')
  {
    hide Split;
    var (rest, parts) := (name[12..], Split(name, '/'));
    assert name == "environment" + "/" + rest && '/' !in "environment";
    SplitPart("environment", '/', rest);
    JoinSplit(rest, '/');
    var more := Split(rest, '/');
    assert parts[1] == more[0] && parts[2..] == more[1..];
    assert name == "environment" + "/" + (more[0] + "/" + Join(more[1..], '/'));
  }

  /** An environment's secrets stay in one place when another is written, whatever the setting has become. */
  lemma StaysInOnePlace(db: Db, db': Db, env: nat, rest: string, here: Option<string>, setting: string)
    requires OnePlace(db, env) && IsEnvStore(db, env, here)
    requires var name := Folder(env) + rest;
             && name in db'.secrets && db'.secrets.Keys == db.secrets.Keys + {name}
             && (forall n :: n in db.secrets ==> db'.secrets[n].store == db.secrets[n].store)
             && (name !in db.secrets ==> db'.secrets[name].store == DefaultStore(name, here, setting))
    ensures OnePlace(db', env)
  {
    hide DefaultStore, Pinned, Dec;
    var name := Folder(env) + rest;
    NewSecretJoins(env, rest, here, setting);
    if here.Some? {
      HasName(InStore(db, env, here.value));
    }
  }

  lemma HasName(names: set<string>)
    requires names != {}
    ensures exists n :: n in names
  {
  }

  /** The active data key: the newest of the rows marked so. */
  ghost predicate IsActive(keys: map<int, KeyRow>, id: int) {
    id in keys && keys[id].active && forall k :: k in keys && keys[k].active ==> k <= id
  }

  predicate SomeActive(keys: map<int, KeyRow>) {
    exists k :: k in keys && keys[k].active
  }

  lemma HasOne(ids: set<int>)
    requires ids != {}
    ensures exists k :: k in ids
  {
    assert (forall k :: k !in ids) ==> ids == {};
  }

  method FindActive(keys: map<int, KeyRow>) returns (r: Option<int>)
    ensures if r.Some? then IsActive(keys, r.value) else !SomeActive(keys)
  {
    r := None;
    var todo := keys.Keys;
    while todo != {}
      invariant todo <= keys.Keys
      invariant forall k :: k in keys && k !in todo && keys[k].active ==> r.Some? && k <= r.value
      invariant r.Some? ==> r.value in keys && keys[r.value].active
      decreases todo
    {
      HasOne(todo);
      var k :| k in todo;
      if keys[k].active && (r == None || r.value < k) {
        r := Some(k);
      }
      todo := todo - {k};
    }
  }

  /** A new data key's bytes are none that anything in the store was encrypted with. */
  ghost predicate NewKey(db: Db, dek: string) {
    forall n :: n in db.secrets && db.secrets[n].value.V2? && db.secrets[n].value.token.Token?
                ==> db.secrets[n].value.token.key != Data(dek)
  }

  /** Everything reads the same, with a new data key row that nothing uses yet. */
  lemma NewRowReadsNothing(db: Db, ext: Elsewhere, master: Key, id: int, wrapped: Token, dek: string, name: string)
    requires id !in db.keys && NewKey(db, dek) && Unwrap(master, wrapped) == Some(Data(dek))
    ensures Read(db.(keys := db.keys[id := KeyRow(wrapped, true)]), ext, master, name) == Read(db, ext, master, name)
  {
  }

  // --- one process's view, with its cache ---------------------------------------------------

  datatype Put = Stored | KeyDoesNotOpen | StoreFailed

  datatype Got = Value(value: Option<string>) | StoreUnreachable

  /** What the row of a secret kept elsewhere holds: nothing. */
  const NO_VALUE := Direct(Garbage(""))

  class Store {
    var db: Db
    var elsewhere: Elsewhere
    var cache: map<(int, Token), Key>
    const master: Key

    /** Every cached key is what unwrapping its wrapped value gives. Nothing is asked of the database:
        other processes may change its rows at any time. */
    ghost predicate Valid()
      reads this`cache
    {
      forall e :: e in cache ==> Unwrap(master, e.1) == Some(cache[e])
    }

    constructor (db: Db, elsewhere: Elsewhere, masterText: string)
      ensures Valid() && this.db == db && this.elsewhere == elsewhere && master == Master(masterText)
    {
      this.db, this.elsewhere, cache, master := db, elsewhere, map[], Master(masterText);
    }

    /** Another process commits: rows appear, change, vanish, and come back under a used id. */
    method OthersCommit(db': Db, elsewhere': Elsewhere)
      requires Valid()
      modifies this`db, this`elsewhere
      ensures Valid() && db == db' && elsewhere == elsewhere'
    {
      db, elsewhere := db', elsewhere';
    }

    /** `_data_key`: answers as unwrapping anew would. */
    method DataKey(id: int) returns (r: Lookup)
      requires Valid()
      modifies this`cache
      ensures Valid() && r == FreshLookup(db.keys, master, id)
    {
      if id !in db.keys {
        return NoRow;
      }
      var wrapped := db.keys[id].wrapped;
      if (id, wrapped) !in cache {
        var dek := Decrypt(master, wrapped);
        if dek == None {
          return DoesNotOpen;
        }
        cache := cache[(id, wrapped) := Data(dek.value)];
      }
      return Is(cache[(id, wrapped)]);
    }

    /** `active_data_key`, with a new key's bytes and row id; None when the active key doesn't open. */
    method ActiveDataKey(dek: string, newId: int) returns (id: int, r: Option<Key>)
      requires Valid() && newId !in db.keys
      modifies this`db, this`cache
      ensures Valid() && db.secrets == old(db.secrets)
      ensures id in db.keys && db.keys[id].active
      ensures r == Unwrap(master, db.keys[id].wrapped)
      ensures SomeActive(old(db.keys)) ==> db == old(db) && IsActive(db.keys, id)
      ensures !SomeActive(old(db.keys)) ==>
        && id == newId && r == Some(Data(dek)) && db.keys == old(db.keys)[newId := db.keys[newId]]
        && Unwrap(master, db.keys[newId].wrapped) == Some(Data(dek)) && db.keys[newId].active
    {
      var active := FindActive(db.keys);
      if active == None {
        var wrapped := Encrypt(master, dek);
        db := db.(keys := db.keys[newId := KeyRow(wrapped, true)]);
        id := newId;
      } else {
        id := active.value;
      }
      var found := DataKey(id);
      r := if found.Is? then Some(found.key) else None;
    }

    /** `put_secret`: where the secret's row says, or for a new one in its default store; `reached` says
        whether an external store takes the write. */
    method PutSecret(name: string, value: string, here: Option<string>, setting: string, reached: bool, dek: string,
                     newId: int)
      returns (r: Put)
      requires Valid() && newId !in db.keys && NewKey(db, dek)
      modifies this
      ensures Valid()
      ensures var rows := old(db.secrets);
              var store := if name in rows then rows[name].store else DefaultStore(name, here, setting);
              && (r == StoreFailed <==> store != "builtin" && !reached)
              && (r == KeyDoesNotOpen <==>
                    store == "builtin"
                    && old(exists k :: IsActive(db.keys, k) && Unwrap(master, db.keys[k].wrapped) == None))
              && (r == Stored ==> name in db.secrets && db.secrets[name].store == store)
      ensures r == Stored ==> Read(db, elsewhere, master, name) == Some(value)
      ensures r != Stored ==> db == old(db) && elsewhere == old(elsewhere)
      ensures forall n :: n in old(db.secrets) ==>
        n in db.secrets && db.secrets[n].store == old(db.secrets[n].store)
        && (n != name ==> db.secrets[n] == old(db.secrets[n]))
      ensures forall n :: n != name ==> Read(db, elsewhere, master, n) == old(Read(db, elsewhere, master, n))
      ensures db.secrets.Keys == old(db.secrets.Keys) + if r == Stored then {name} else {}
      ensures old(PinnedInside(db)) ==> PinnedInside(db)
    {
      hide DefaultStore, Pinned;
      OthersBuiltIn(name, here, setting);
      var store := if name in db.secrets then db.secrets[name].store else DefaultStore(name, here, setting);
      if store != "builtin" {
        if !reached {
          return StoreFailed;
        }
        elsewhere := elsewhere[(store, name) := value];
        db := db.(secrets := db.secrets[name := SecretRow(NO_VALUE, store)]);
        return Stored;
      }
      ghost var before := db;
      var id, key := ActiveDataKey(dek, newId);
      ghost var between := db;
      forall n ensures Read(between, elsewhere, master, n) == Read(before, elsewhere, master, n) {
        if !SomeActive(before.keys) {
          NewRowReadsNothing(before, elsewhere, master, newId, between.keys[newId].wrapped, dek, n);
          assert between == before.(keys := before.keys[newId := KeyRow(between.keys[newId].wrapped, true)]);
        }
      }
      if key == None {
        return KeyDoesNotOpen;
      }
      var token := Encrypt(key.value, value);
      db := db.(secrets := db.secrets[name := SecretRow(V2(id, token), "builtin")]);
      return Stored;
    }

    /** `get_secret`; `reached` says whether an external store answers. */
    method GetSecret(name: string, reached: bool) returns (r: Got)
      requires Valid()
      modifies this`cache
      ensures Valid()
      ensures r == StoreUnreachable <==> name in db.secrets && db.secrets[name].store != "builtin" && !reached
      ensures r.Value? ==> r.value == Read(db, elsewhere, master, name)
    {
      if name !in db.secrets {
        return Value(None);
      }
      var row := db.secrets[name];
      if row.store != "builtin" {
        if !reached {
          return StoreUnreachable;
        }
        return Value(if (row.store, name) in elsewhere then Some(elsewhere[(row.store, name)]) else None);
      }
      match row.value
      case V2(id, token) =>
        var k := DataKey(id);
        return Value(if k.Is? then Decrypt(k.key, token) else None);
      case V2Damaged(_) => return Value(None);
      case Direct(token) => return Value(Decrypt(master, token));
    }

    /** `rewrap_master`: in one transaction, every data key from the old master key to the new one, and
        every value encrypted with the old master key itself onto a data key. None when something doesn't
        open under the old key: then nothing changes. */
    method RewrapMaster(oldKey: string, newKey: string, dek: string, newId: int) returns (count: Option<nat>)
      requires Valid() && newId !in db.keys && NewKey(db, dek)
      modifies this`db, this`cache
      ensures Valid()
      ensures count.Some? <==> CanRewrap(old(db), Master(oldKey))
      ensures count == None ==> db == old(db)
      ensures count.Some? ==>
        Rewrapped(old(db), db, elsewhere, Master(oldKey), Master(newKey)) && count.value == |db.keys| && cache == map[]
    {
      var (from, onto) := (Master(oldKey), Master(newKey));
      var keys, ok := RewrapKeys(db.keys, from, onto);
      if !ok {
        return None;
      }
      var active := FindActive(keys);
      ghost var rewrapped := keys;
      var id := newId;
      if active == None {
        var wrapped := Encrypt(onto, dek);
        keys := keys[newId := KeyRow(wrapped, true)];
      } else {
        id := active.value;
      }
      var secrets, moved := MoveDirect(db.secrets, from, id, Unwrap(onto, keys[id].wrapped).value);
      if !moved {
        return None;
      }
      RewrappedReads(db, elsewhere, rewrapped, keys, secrets, from, onto, id, dek, newId);
      db := Db(keys, secrets);
      cache := map[];
      return Some(|keys|);
    }
  }

  // --- the rotation's two loops -------------------------------------------------------------

  method RewrapKeys(keys: map<int, KeyRow>, from: Key, onto: Key) returns (out: map<int, KeyRow>, ok: bool)
    ensures ok <==> forall k :: k in keys ==> Unwrap(from, keys[k].wrapped).Some?
    ensures ok ==> KeysMoved(keys, out, from, onto)
  {
    out := map[];
    var todo := keys.Keys;
    while todo != {}
      invariant todo <= keys.Keys && out.Keys == keys.Keys - todo
      invariant forall k :: k in out ==> Unwrap(from, keys[k].wrapped).Some?
                                         && Unwrap(onto, out[k].wrapped) == Unwrap(from, keys[k].wrapped)
                                         && out[k].active == keys[k].active
      decreases todo
    {
      HasOne(todo);
      var k :| k in todo;
      var dek := Decrypt(from, keys[k].wrapped);
      if dek == None {
        return out, false;
      }
      var wrapped := Encrypt(onto, dek.value);
      out := out[k := KeyRow(wrapped, keys[k].active)];
      todo := todo - {k};
    }
    ok := true;
  }

  method MoveDirect(secrets: map<string, SecretRow>, from: Key, id: int, key: Key)
    returns (out: map<string, SecretRow>, ok: bool)
    ensures ok <==> forall n :: n in secrets && secrets[n].store == "builtin" && secrets[n].value.Direct?
                                ==> Decrypt(from, secrets[n].value.token).Some?
    ensures ok ==> SecretsMoved(secrets, out, from, id, key)
  {
    out := map[];
    var todo := secrets.Keys;
    while todo != {}
      invariant todo <= secrets.Keys && out.Keys == secrets.Keys - todo
      invariant forall n :: n in out ==> RowMoved(secrets[n], out[n], from, id, key)
      decreases todo
    {
      var n :| n in todo;
      var row := secrets[n];
      if row.store == "builtin" && row.value.Direct? {
        var plain := Decrypt(from, row.value.token);
        if plain == None {
          return out, false;
        }
        var token := Encrypt(key, plain.value);
        row := row.(value := V2(id, token));
      }
      out := out[n := row];
      todo := todo - {n};
    }
    ok := true;
  }

  ghost predicate KeysMoved(keys: map<int, KeyRow>, out: map<int, KeyRow>, from: Key, onto: Key) {
    out.Keys == keys.Keys
    && forall k :: k in keys ==> Unwrap(from, keys[k].wrapped).Some?
                                 && Unwrap(onto, out[k].wrapped) == Unwrap(from, keys[k].wrapped)
                                 && out[k].active == keys[k].active
  }

  /** A value under the old master key itself is now under the data key; any other is as it was. */
  ghost predicate RowMoved(row: SecretRow, row': SecretRow, from: Key, id: int, key: Key) {
    if row.store == "builtin" && row.value.Direct? then
      && Decrypt(from, row.value.token).Some? && row'.store == "builtin" && row'.value.V2? && row'.value.id == id
      && Decrypt(key, row'.value.token) == Decrypt(from, row.value.token)
    else row' == row
  }

  ghost predicate SecretsMoved(secrets: map<string, SecretRow>, out: map<string, SecretRow>, from: Key, id: int,
                               key: Key) {
    out.Keys == secrets.Keys && forall n :: n in secrets ==> RowMoved(secrets[n], out[n], from, id, key)
  }

  // --- what a rotation of the master key does -----------------------------------------------

  /** Every data key, and every value encrypted with the master key itself, opens under it. */
  ghost predicate CanRewrap(db: Db, from: Key) {
    && (forall k :: k in db.keys ==> Unwrap(from, db.keys[k].wrapped).Some?)
    && forall n :: n in db.secrets && db.secrets[n].store == "builtin" && db.secrets[n].value.Direct?
                   ==> Decrypt(from, db.secrets[n].value.token).Some?
  }

  /** Every secret reads under the new key as it did under the old one, whatever it read as; every data key
      opens under the new key, to the same key as before; no built-in value is under a master key
      directly; and secrets kept elsewhere are as they were. */
  ghost predicate Rewrapped(db: Db, db': Db, ext: Elsewhere, from: Key, onto: Key) {
    && (forall n :: Read(db', ext, onto, n) == Read(db, ext, from, n))
    && (forall k :: k in db'.keys ==> Unwrap(onto, db'.keys[k].wrapped).Some?)
    && (forall k :: k in db.keys ==>
          k in db'.keys && Unwrap(onto, db'.keys[k].wrapped) == Unwrap(from, db.keys[k].wrapped))
    && (forall n :: n in db'.secrets && db'.secrets[n].store == "builtin" ==> !db'.secrets[n].value.Direct?)
    && db'.secrets.Keys == db.secrets.Keys
    && (forall n :: n in db.secrets && db.secrets[n].store != "builtin" ==> db'.secrets[n] == db.secrets[n])
    && SomeActive(db'.keys)
  }

  lemma RewrappedReads(db: Db, ext: Elsewhere, rewrapped: map<int, KeyRow>, keys: map<int, KeyRow>,
                       secrets: map<string, SecretRow>, from: Key, onto: Key, id: int, dek: string, newId: int)
    requires newId !in db.keys && NewKey(db, dek) && KeysMoved(db.keys, rewrapped, from, onto)
    requires keys == rewrapped || (newId in keys && keys == rewrapped[newId := keys[newId]]
                                   && Unwrap(onto, keys[newId].wrapped) == Some(Data(dek)))
    requires id in keys && keys[id].active && Unwrap(onto, keys[id].wrapped).Some?
    requires SecretsMoved(db.secrets, secrets, from, id, Unwrap(onto, keys[id].wrapped).value)
    ensures Rewrapped(db, Db(keys, secrets), ext, from, onto)
  {
    forall n ensures Read(Db(keys, secrets), ext, onto, n) == Read(db, ext, from, n) {
      if n in db.secrets {
        assert RowMoved(db.secrets[n], secrets[n], from, id, Unwrap(onto, keys[id].wrapped).value);
      }
    }
    forall n | n in db.secrets
      ensures secrets[n].store == "builtin" ==> !secrets[n].value.Direct?
      ensures db.secrets[n].store != "builtin" ==> secrets[n] == db.secrets[n]
    {
      assert RowMoved(db.secrets[n], secrets[n], from, id, Unwrap(onto, keys[id].wrapped).value);
    }
  }
}
