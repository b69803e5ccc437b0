/** The backend-configuration store: a Svelte writable seeded with the default
    configuration, persisted to `config.json` on the server and to the
    `backendConfig` entry of `localStorage` in the browser.

    The persistence backend is one optional string (the file's content, or
    the storage entry; `None` when the file does not exist or the entry is
    absent) together with per-call fault flags saying whether reading or
    writing it throws. JSON is an abstract codec passed in as a parameter. */
module ConfigStore {
  import opened Wrappers
  import opened Text

  /** A JSON value, as `JSON.parse` produces and `JSON.stringify` consumes. */
  datatype Json =
    | JNull
    | JBool(b: bool)
    | JNum(n: int)
    | JStr(s: string)
    | JArr(items: seq<Json>)
    | JObj(members: seq<(string, Json)>)

  /** The configuration the store starts with and falls back to. */
  const DefaultConfig: Json := JObj([
    ("apiBaseUrl", JStr("http://localhost:3000")),
    ("websocketUrl", JStr("http://localhost:3000")),
    ("fileServer", JStr("http://192.168.1.2:5173/videos/"))
  ])

  /** `JSON.stringify(v)`, `JSON.stringify(v, null, 2)` and `JSON.parse(s)`;
      `parse` yields `None` where `JSON.parse` throws. */
  datatype Codec = Codec(stringify: Json -> string, pretty: Json -> string, parse: string -> Option<Json>)

  /** The largest integer a JavaScript number holds exactly, 2^53 - 1. */
  const MaxSafeInteger: int := 0x1F_FFFF_FFFF_FFFF

  /** An array index as a property key: the canonical decimal form of an
      integer below 2^32 - 1. */
  predicate IsArrayIndex(key: string) {
    && |key| >= 1 && AllDigits(key) && (|key| == 1 || key[0] != '0')
    && DigitsValue(key) < 0xFFFF_FFFF
  }

  /** The values that stand for a JavaScript value: numbers are safe
      integers, and an object's keys are distinct and in the order
      JavaScript enumerates them, array indices first and ascending, then
      the other keys. Only such values come back from `JSON.parse`. */
  predicate Canonical(v: Json)
    decreases v
  {
    match v
    case JNum(n) => -MaxSafeInteger <= n <= MaxSafeInteger
    case JArr(items) => forall i :: 0 <= i < |items| ==> Canonical(items[i])
    case JObj(members) =>
      && (forall i, j :: 0 <= i < j < |members| ==> members[i].0 != members[j].0)
      && (forall i, j :: 0 <= i < j < |members| && IsArrayIndex(members[j].0) ==>
            IsArrayIndex(members[i].0) && DigitsValue(members[i].0) < DigitsValue(members[j].0))
      && (forall i :: 0 <= i < |members| ==> Canonical(members[i].1))
    case _ => true
  }

  /** What the model relies on about JSON: both renderings of a canonical
      value parse back to it, and the empty string is not JSON. */
  ghost predicate Lawful(codec: Codec) {
    && (forall v :: Canonical(v) ==> codec.parse(codec.stringify(v)) == Some(v))
    && (forall v :: Canonical(v) ==> codec.parse(codec.pretty(v)) == Some(v))
    && codec.parse("") == None
  }

  /** Which backend the module was loaded in (SvelteKit's `browser` flag). */
  datatype Env = Server | Browser

  /** Whether reading, respectively writing, the backend throws during one call. */
  datatype Faults = Faults(readThrows: bool, writeThrows: bool)

  /** The module's state: the backend slot, the writable's current value, the
      value `initializationPromise` resolved to, and every value the writable
      has announced to its subscribers, oldest first. */
  datatype Store = Store(env: Env, slot: Option<string>, value: Json, init: Json, published: seq<Json>)

  /** Subscribers have been told the current value last. */
  predicate Valid(s: Store) {
    |s.published| >= 1 && s.published[|s.published| - 1] == s.value
  }

  /** Svelte's `safe_not_equal`: a writable announces a new value unless the
      current one is a primitive equal to it; an object current value always
      counts as changed. */
  predicate Notifies(current: Json, next: Json) {
    current.JObj? || current.JArr? || current != next
  }

  /** The writable's own `set`, which persists nothing. */
  function Publish(s: Store, v: Json): (r: Store)
    requires Valid(s)
    ensures Valid(r)
    ensures r.value == v
    ensures r.env == s.env && r.slot == s.slot && r.init == s.init
    ensures r.published == s.published || r.published == s.published + [v]
  {
    if Notifies(s.value, v) then s.(value := v, published := s.published + [v]) else s
  }

  /** Server initialisation. An existing file that reads and parses becomes the
      value and the result; a missing file is created holding the default,
      which is returned; every failure is absorbed and yields the default
      with the value untouched. */
  function InitializeServer(s: Store, f: Faults, codec: Codec): (r: (Store, Json))
    requires Valid(s)
    ensures Valid(r.0) && r.0.env == s.env && r.0.init == s.init
    ensures r.1 != DefaultConfig ==> s.slot.Some? && codec.parse(s.slot.value) == Some(r.1)
    ensures s.slot.Some? && !f.readThrows && codec.parse(s.slot.value).Some? ==>
      r.1 == codec.parse(s.slot.value).value && r.0.value == r.1 && r.0.slot == s.slot
    ensures s.slot.Some? && (f.readThrows || codec.parse(s.slot.value).None?) ==>
      r == (s, DefaultConfig)
    ensures s.slot.None? ==> r.1 == DefaultConfig && r.0.value == s.value && r.0.published == s.published
    ensures s.slot.None? ==> r.0.slot == (if f.writeThrows then None else Some(codec.pretty(DefaultConfig)))
  {
    match s.slot
    case Some(content) =>
      if f.readThrows then (s, DefaultConfig)
      else (match codec.parse(content)
        case None => (s, DefaultConfig)
        case Some(config) => (Publish(s, config), config))
    case None =>
      if f.writeThrows then (s, DefaultConfig)
      else (s.(slot := Some(codec.pretty(DefaultConfig))), DefaultConfig)
  }

  /** Browser initialisation. A non-empty stored entry that parses becomes
      the value and the result; an absent or empty entry, a throwing read or
      a parse error yields the default and changes nothing. */
  function InitializeBrowser(s: Store, f: Faults, codec: Codec): (r: (Store, Json))
    requires Valid(s)
    ensures Valid(r.0) && r.0.env == s.env && r.0.init == s.init && r.0.slot == s.slot
    ensures r.1 != DefaultConfig ==> s.slot.Some? && codec.parse(s.slot.value) == Some(r.1)
    ensures !f.readThrows && s.slot.Some? && s.slot.value != "" && codec.parse(s.slot.value).Some? ==>
      r.1 == codec.parse(s.slot.value).value && r.0.value == r.1
    ensures f.readThrows || s.slot.None? || s.slot.value == "" || codec.parse(s.slot.value).None? ==>
      r == (s, DefaultConfig)
  {
    if f.readThrows then (s, DefaultConfig)
    else match s.slot
      case None => (s, DefaultConfig)
      case Some(saved) =>
        if saved == "" then (s, DefaultConfig)
        else match codec.parse(saved)
          case None => (s, DefaultConfig)
          case Some(config) => (Publish(s, config), config)
  }

  /** Initialisation on the backend the module runs in (`init`). Whatever
      is not the default was read from storage. */
  function Initialize(s: Store, f: Faults, codec: Codec): (r: (Store, Json))
    requires Valid(s)
    ensures Valid(r.0) && r.0.env == s.env && r.0.init == s.init
    ensures r.1 != DefaultConfig ==> s.slot.Some? && codec.parse(s.slot.value) == Some(r.1)
    ensures !f.readThrows && s.slot.Some? && s.slot.value != "" && codec.parse(s.slot.value).Some? ==>
      r.1 == codec.parse(s.slot.value).value && r.0.value == r.1
    ensures s.slot.Some? && (f.readThrows || codec.parse(s.slot.value).None?) ==> r == (s, DefaultConfig)
    ensures s.slot.None? ==> r.1 == DefaultConfig && r.0.value == s.value
    ensures r.0.slot == if s.env == Server && s.slot.None? && !f.writeThrows then Some(codec.pretty(DefaultConfig)) else s.slot
  {
    if s.env == Browser then InitializeBrowser(s, f, codec) else InitializeServer(s, f, codec)
  }

  /** Loading the module: the writable starts at the default, announces it,
      and initialisation for the current backend runs to completion; its
      result is what `initializationPromise` resolves to. Before it
      completes the value is the default, so afterwards the value is
      always the initialisation result. */
  function Boot(env: Env, slot: Option<string>, f: Faults, codec: Codec): (r: Store)
    ensures Valid(r) && r.env == env
    ensures r.value == r.init
    ensures r.published[0] == DefaultConfig
  {
    var start := Store(env, slot, DefaultConfig, DefaultConfig, [DefaultConfig]);
    var (s, result) := Initialize(start, f, codec);
    s.(init := result)
  }

  /** Why `configStore.set` rejected. */
  datatype SetError = StorageThrew

  /** `configStore.set(v)`: persist, then set the value. The value is not
      validated. In the browser a throwing `setItem` rejects before the value
      changes; on the server a failing write is swallowed and the value is
      set all the same. */
  function Set(s: Store, v: Json, f: Faults, codec: Codec): (r: Result<Store, SetError>)
    requires Valid(s)
    ensures r.Failure? <==> s.env == Browser && f.writeThrows
    ensures r.Success? ==> Valid(r.value) && r.value.value == v
    ensures r.Success? ==> r.value.env == s.env && r.value.init == s.init
    ensures r.Success? && s.env == Browser ==> r.value.slot == Some(codec.stringify(v))
    ensures r.Success? && s.env == Server ==>
      r.value.slot == (if f.writeThrows then s.slot else Some(codec.pretty(v)))
  {
    if s.env == Browser then
      if f.writeThrows then Failure(StorageThrew)
      else Success(Publish(s.(slot := Some(codec.stringify(v))), v))
    else
      var persisted := if f.writeThrows then s else s.(slot := Some(codec.pretty(v)));
      Success(Publish(persisted, v))
  }

  /** `configStore.update(updater)`: the updater sees the initialisation
      result, not the current value; its output is set and returned. */
  function Update(s: Store, updater: Json -> Json, f: Faults, codec: Codec): (r: Result<(Store, Json), SetError>)
    requires Valid(s)
    ensures r.Failure? <==> Set(s, updater(s.init), f, codec).Failure?
    ensures r.Success? ==> r.value.1 == updater(s.init) && r.value.0.value == updater(s.init)
    ensures r.Success? ==> Valid(r.value.0) && r.value.0.init == s.init && r.value.0.env == s.env
    ensures r.Success? ==> r.value.0 == Set(s, updater(s.init), f, codec).value
  {
    var next := updater(s.init);
    var stored :- Set(s, next, f, codec);
    Success((stored, next))
  }

  /** `configStore.waitForInit()`. */
  function WaitForInit(s: Store): Json {
    s.init
  }

  /** `configStore.reload()`: initialisation run again on the same backend;
      the initialisation result itself is not replaced. */
  function Reload(s: Store, f: Faults, codec: Codec): (r: (Store, Json))
    requires Valid(s)
    ensures Valid(r.0) && r.0.env == s.env && r.0.init == s.init
    ensures r.1 != DefaultConfig ==> s.slot.Some? && codec.parse(s.slot.value) == Some(r.1)
    ensures !f.readThrows && s.slot.Some? && s.slot.value != "" && codec.parse(s.slot.value).Some? ==>
      r.1 == codec.parse(s.slot.value).value && r.0.value == r.1
    ensures s.slot.Some? && (f.readThrows || codec.parse(s.slot.value).None?) ==> r == (s, DefaultConfig)
    ensures s.slot.None? ==> r.1 == DefaultConfig && r.0.value == s.value
    ensures r.0.slot == if s.env == Server && s.slot.None? && !f.writeThrows then Some(codec.pretty(DefaultConfig)) else s.slot
    ensures r.1 == DefaultConfig || r.0.value == r.1
  {
    Initialize(s, f, codec)
  }

  /** One call on the store's interface, with the faults it meets. */
  datatype Op =
    | SetOp(v: Json, faults: Faults)
    | UpdateOp(updater: Json -> Json, faults: Faults)
    | ReloadOp(faults: Faults)

  /** The state after one call; a rejected call changes nothing. */
  function Step(s: Store, op: Op, codec: Codec): Store
    requires Valid(s)
  {
    match op
    case SetOp(v, f) => (match Set(s, v, f, codec) case Success(t) => t case Failure(_) => s)
    case UpdateOp(g, f) => (match Update(s, g, f, codec) case Success(t) => t.0 case Failure(_) => s)
    case ReloadOp(f) => Reload(s, f, codec).0
  }

  /** The state after a sequence of calls, made one after another. */
  function Run(s: Store, ops: seq<Op>, codec: Codec): (r: Store)
    requires Valid(s)
    ensures Valid(r)
    decreases |ops|
  {
    if |ops| == 0 then s else Run(Step(s, ops[0], codec), ops[1..], codec)
  }

  /** `waitForInit` yields the boot-time initialisation result after any
      sequence of `set`, `update` and `reload` calls. */
  lemma {:induction false} WaitForInitIsStable(s: Store, ops: seq<Op>, codec: Codec)
    requires Valid(s)
    ensures WaitForInit(Run(s, ops, codec)) == WaitForInit(s)
    ensures Run(s, ops, codec).env == s.env
    decreases |ops|
  {
    if |ops| > 0 {
      WaitForInitIsStable(Step(s, ops[0], codec), ops[1..], codec);
    }
  }

  /** Subscribers always last heard the store's current value, whatever calls
      were made after loading. */
  lemma SubscribersSeeCurrentValue(env: Env, slot: Option<string>, f: Faults, ops: seq<Op>, codec: Codec)
    ensures var s := Run(Boot(env, slot, f, codec), ops, codec);
      s.published[|s.published| - 1] == s.value
  {
    var booted := Boot(env, slot, f, codec);
    assert Valid(booted);
    assert Valid(Run(booted, ops, codec));
  }

  /** Two updates do not compose: the second updater also sees the
      initialisation result, so its output replaces the first one's. */
  lemma UpdatesDoNotCompose(s: Store, first: Json -> Json, second: Json -> Json, f1: Faults, f2: Faults, codec: Codec)
    requires Valid(s)
    requires Update(s, first, f1, codec).Success?
    requires Update(Update(s, first, f1, codec).value.0, second, f2, codec).Success?
    ensures var r := Update(Update(s, first, f1, codec).value.0, second, f2, codec).value;
      r.1 == second(s.init) && r.0.value == second(s.init)
  {
  }

  /** A rendering that parses back is never the empty string, which the
      browser would treat as absent. */
  lemma RenderingIsNotEmpty(codec: Codec, v: Json)
    requires Lawful(codec) && Canonical(v)
    ensures codec.stringify(v) != "" && codec.pretty(v) != ""
  {
    assert codec.parse(codec.stringify(v)) == Some(v);
    assert codec.parse(codec.pretty(v)) == Some(v);
  }

  /** Round trip: after `set(v)` has persisted `v`, `reload()` returns `v` and
      the value is `v`, on either backend. */
  lemma SetThenReload(s: Store, v: Json, fw: Faults, fr: Faults, codec: Codec)
    requires Valid(s) && Lawful(codec) && Canonical(v)
    requires !fw.writeThrows && !fr.readThrows
    ensures Set(s, v, fw, codec).Success?
    ensures var r := Reload(Set(s, v, fw, codec).value, fr, codec);
      r.1 == v && r.0.value == v
  {
    RenderingIsNotEmpty(codec, v);
    var t := Set(s, v, fw, codec).value;
    if s.env == Browser {
      assert t.slot == Some(codec.stringify(v));
      assert codec.parse(codec.stringify(v)) == Some(v);
    } else {
      assert t.slot == Some(codec.pretty(v));
      assert codec.parse(codec.pretty(v)) == Some(v);
    }
  }

  /** `update(f)` persists `f(init)`: a `reload()` without read faults
      afterwards returns it, on either backend. */
  lemma UpdateThenReload(s: Store, updater: Json -> Json, fw: Faults, fr: Faults, codec: Codec)
    requires Valid(s) && Lawful(codec) && Canonical(updater(s.init))
    requires !fw.writeThrows && !fr.readThrows
    ensures Update(s, updater, fw, codec).Success?
    ensures var r := Reload(Update(s, updater, fw, codec).value.0, fr, codec);
      r.1 == updater(s.init) && r.0.value == updater(s.init)
  {
    SetThenReload(s, updater(s.init), fw, fr, codec);
  }

  /** With nothing stored, `reload()` returns the default and leaves the
      value as it was (the server also recreates the file when it can). */
  lemma ReloadWithNothingStored(s: Store, f: Faults, codec: Codec)
    requires Valid(s) && s.slot.None?
    ensures Reload(s, f, codec).1 == DefaultConfig
    ensures Reload(s, f, codec).0.value == s.value
  {
  }

  /** Total UTF-16 length of every key and value in storage order. */
  function StorageSize(entries: seq<(string, string)>): nat {
    if |entries| == 0 then 0
    else
      var (key, value) := entries[|entries| - 1];
      StorageSize(entries[..|entries| - 1]) + Utf16Length(key) + Utf16Length(value)
  }

  /** Number of characters, one per code point, in every key and value. */
  function CodePoints(entries: seq<(string, string)>): nat {
    if |entries| == 0 then 0 else |entries[0].0| + |entries[0].1| + CodePoints(entries[1..])
  }

  /** `getLocalStorageSize()`: the storage entries in `key(i)` order, or
      `None` where `localStorage` does not exist and the thrown error is
      absorbed. */
  method LocalStorageSize(storage: Option<seq<(string, string)>>) returns (total: nat)
    ensures storage.None? ==> total == 0
    ensures storage.Some? ==> total == StorageSize(storage.value)
    ensures storage.Some? ==> CodePoints(storage.value) <= total <= 2 * CodePoints(storage.value)
  {
    total := 0;
    if storage.Some? {
      var entries := storage.value;
      var i := 0;
      while i < |entries|
        invariant 0 <= i <= |entries|
        invariant total == StorageSize(entries[..i])
      {
        var (key, value) := entries[i];
        assert entries[..i + 1][..i] == entries[..i];
        total := total + Utf16Length(key) + Utf16Length(value);
        i := i + 1;
      }
      assert entries[..i] == entries;
      StorageSizeBounds(entries);
    }
  }

  /** Each code point takes one or two UTF-16 units, so the size lies between
      the code-point count and twice it. */
  lemma {:induction false} StorageSizeBounds(entries: seq<(string, string)>)
    ensures CodePoints(entries) <= StorageSize(entries) <= 2 * CodePoints(entries)
    decreases |entries|
  {
    if |entries| > 0 {
      var front := entries[..|entries| - 1];
      StorageSizeBounds(front);
      CodePointsOfSnoc(front, entries[|entries| - 1]);
      assert front + [entries[|entries| - 1]] == entries;
    }
  }

  lemma {:induction false} CodePointsOfSnoc(entries: seq<(string, string)>, e: (string, string))
    ensures CodePoints(entries + [e]) == CodePoints(entries) + |e.0| + |e.1|
    decreases |entries|
  {
    if |entries| == 0 {
      assert entries + [e] == [e];
      assert [e][1..] == [];
    } else {
      CodePointsOfSnoc(entries[1..], e);
      assert (entries + [e])[1..] == entries[1..] + [e];
    }
  }
}
