/**
 Reading the model tables of an installed Python package without running it.  The static reading is
 compared with what Python would build, whatever the parts that the reader does not look into do.
 */
module ModelTables {
  import opened Options

  // `**spread` has no key; a key is a string constant, another constant, or computed.
  datatype Key = Spread | StringKey(s: string) | OtherKey | Computed(site: nat)

  datatype Item = Item(key: Key, value: Expr)

  // A name, a dict display, or any other expression, known by where it stands.
  datatype Expr = Name(id: string) | Dict(items: seq<Item>) | Other(site: nat)

  // An assignment to one name, or any other statement, known by the names it binds.
  datatype Stmt = Assign(target: string, value: Expr) | Binds(names: set<string>, site: nat)

  const SUFFIX := "_MODELS"

  predicate IsTableName(name: string) {
    |name| >= |SUFFIX| && name[|name| - |SUFFIX|..] == SUFFIX
  }

  type Tables = map<string, seq<string>>

  /******* The static reading *******/

  function StringKeys(e: Expr, tables: Tables): (r: seq<string>)
    decreases e, 1
  {
    match e
    case Name(id) => if id in tables then tables[id] else []
    case Dict(items) => ItemKeys(items, tables)
    case Other(_) => []
  }

  function ItemKeys(items: seq<Item>, tables: Tables): (r: seq<string>)
    decreases items, 0
  {
    if |items| == 0 then [] else ItemKey(items[0], tables) + ItemKeys(items[1..], tables)
  }

  function ItemKey(item: Item, tables: Tables): (r: seq<string>)
    decreases item, 0
  {
    match item.key
    case Spread => StringKeys(item.value, tables)
    case StringKey(s) => [s]
    case _ => []
  }

  function ScanStmt(s: Stmt, tables: Tables): (r: Tables) {
    if s.Assign? && IsTableName(s.target) then tables[s.target := StringKeys(s.value, tables)] else tables
  }

  function Scan(body: seq<Stmt>): (r: Tables) {
    if |body| == 0 then map[] else ScanStmt(body[|body| - 1], Scan(body[..|body| - 1]))
  }

  method ScanModule(body: seq<Stmt>) returns (tables: Tables)
    ensures tables == Scan(body)
  {
    tables := map[];
    for i := 0 to |body|
      invariant tables == Scan(body[..i])
    {
      assert body[..i + 1][..i] == body[..i];
      if body[i].Assign? && IsTableName(body[i].target) {
        tables := tables[body[i].target := StringKeys(body[i].value, tables)];
      }
    }
    assert body[..|body|] == body;
  }

  // The table the script reports.
  function Architectures(tables: Tables): (r: Option<seq<string>>) {
    if "_VLLM_MODELS" in tables && tables["_VLLM_MODELS"] != [] then Some(tables["_VLLM_MODELS"])
    else if "_TEXT_GENERATION_MODELS" in tables && tables["_TEXT_GENERATION_MODELS"] != []
    then Some(tables["_TEXT_GENERATION_MODELS"])
    else None
  }

  /******* What Python does *******/

  // Of a value only this matters: whether it is a mapping, and its string keys.
  datatype Value = Mapping(keys: set<string>) | Opaque

  // What the parts that are not looked into evaluate to; None where they raise.  A computed key is
  // a string or something else.
  datatype World = World(
    value: nat -> Option<Value>,
    key: nat -> Option<Option<string>>,
    bound: (nat, string) -> Option<Value>)

  type Env = imap<string, Value>

  function KeysOf(v: Value): (r: set<string>) {
    if v.Mapping? then v.keys else {}
  }

  ghost function Eval(e: Expr, env: Env, w: World): (r: Option<Value>)
    decreases e, 1
  {
    match e
    case Name(id) => if id in env then Some(env[id]) else None
    case Dict(items) =>
      (match EvalItems(items, env, w)
       case None => None
       case Some(keys) => Some(Mapping(keys)))
    case Other(site) => w.value(site)
  }

  // The string keys that one item of a dict display contributes.
  ghost function EvalItem(item: Item, env: Env, w: World): (r: Option<set<string>>)
    decreases item, 0
  {
    match Eval(item.value, env, w)
    case None => None
    case Some(v) =>
      match item.key
      case Spread => if v.Mapping? then Some(v.keys) else None
      case StringKey(s) => Some({s})
      case OtherKey => Some({})
      case Computed(site) =>
        match w.key(site)
        case None => None
        case Some(k) => Some(if k.Some? then {k.value} else {})
  }

  ghost function EvalItems(items: seq<Item>, env: Env, w: World): (r: Option<set<string>>)
    decreases items, 0
  {
    if |items| == 0 then Some({})
    else
      match (EvalItem(items[0], env, w), EvalItems(items[1..], env, w))
      case (Some(a), Some(b)) => Some(a + b)
      case _ => None
  }

  ghost function ExecStmt(s: Stmt, env: Env, w: World): (r: Option<Env>) {
    match s
    case Assign(target, e) =>
      (match Eval(e, env, w)
       case None => None
       case Some(v) => Some(env[target := v]))
    case Binds(names, site) =>
      if exists n :: n in names && w.bound(site, n).None? then None
      else Some(imap n | n in env || n in names :: if n in names then w.bound(site, n).value else env[n])
  }

  ghost function Exec(body: seq<Stmt>, env: Env, w: World): (r: Option<Env>) {
    if |body| == 0 then Some(env)
    else
      match Exec(body[..|body| - 1], env, w)
      case None => None
      case Some(before) => ExecStmt(body[|body| - 1], before, w)
  }

  /******* What can be known for certain *******/

  // The keys that are certainly there, and whether there may be others.
  datatype Certain = Certain(keys: set<string>, open: bool) {
    function Join(that: Certain): (r: Certain) {
      Certain(keys + that.keys, open || that.open)
    }
  }

  type Knowledge = map<string, Certain>

  const ANYTHING := Certain({}, true)

  function Know(e: Expr, k: Knowledge): (r: Certain)
    decreases e, 1
  {
    match e
    case Name(id) => if id in k then k[id] else ANYTHING
    case Dict(items) => KnowItems(items, k)
    case Other(_) => ANYTHING
  }

  function KnowItem(item: Item, k: Knowledge): (r: Certain)
    decreases item, 0
  {
    match item.key
    case Spread => Know(item.value, k)
    case StringKey(s) => Certain({s}, false)
    case OtherKey => Certain({}, false)
    case Computed(_) => ANYTHING
  }

  function KnowItems(items: seq<Item>, k: Knowledge): (r: Certain)
    decreases items, 0
  {
    if |items| == 0 then Certain({}, false) else KnowItem(items[0], k).Join(KnowItems(items[1..], k))
  }

  function KnowStmt(s: Stmt, k: Knowledge): (r: Knowledge) {
    match s
    case Assign(target, e) => k[target := Know(e, k)]
    case Binds(names, _) => k - names
  }

  function KnowBody(body: seq<Stmt>): (r: Knowledge) {
    if |body| == 0 then map[] else KnowStmt(body[|body| - 1], KnowBody(body[..|body| - 1]))
  }

  // Only plain assignments bind the names of tables.
  ghost predicate Undisturbed(body: seq<Stmt>) {
    forall i, n :: 0 <= i < |body| && body[i].Binds? && n in body[i].names ==> !IsTableName(n)
  }

  /******* The static reading is certain *******/

  predicate AllIn(s: seq<string>, keys: set<string>) {
    forall i :: 0 <= i < |s| ==> s[i] in keys
  }

  ghost predicate TablesCertain(tables: Tables, k: Knowledge) {
    forall n :: n in tables ==> n in k && AllIn(tables[n], k[n].keys)
  }

  lemma {:induction false} ReadingCertain(e: Expr, tables: Tables, k: Knowledge)
    requires TablesCertain(tables, k)
    ensures AllIn(StringKeys(e, tables), Know(e, k).keys)
    decreases e, 1
  {
    if e.Dict? {
      ItemsCertain(e.items, tables, k);
    }
  }

  lemma {:induction false} ItemsCertain(items: seq<Item>, tables: Tables, k: Knowledge)
    requires TablesCertain(tables, k)
    ensures AllIn(ItemKeys(items, tables), KnowItems(items, k).keys)
    decreases items, 0
  {
    if |items| > 0 {
      ItemCertain(items[0], tables, k);
      ItemsCertain(items[1..], tables, k);
    }
  }

  lemma {:induction false} ItemCertain(item: Item, tables: Tables, k: Knowledge)
    requires TablesCertain(tables, k)
    ensures AllIn(ItemKey(item, tables), KnowItem(item, k).keys)
    decreases item, 0
  {
    ReadingCertain(item.value, tables, k);
  }

  lemma {:induction false} ScanCertain(body: seq<Stmt>)
    requires Undisturbed(body)
    ensures TablesCertain(Scan(body), KnowBody(body))
    ensures forall n :: n in Scan(body) ==> IsTableName(n)
  {
    if |body| > 0 {
      var before, last := body[..|body| - 1], body[|body| - 1];
      ScanCertain(before);
      if last.Assign? {
        ReadingCertain(last.value, Scan(before), KnowBody(before));
      }
    }
  }

  /******* What is certain is what Python builds *******/

  // In every run the certain keys are there, and if nothing is open they are all.
  ghost predicate Fits(c: Certain, v: Value) {
    c.keys <= KeysOf(v) && (!c.open ==> v == Mapping(c.keys))
  }

  ghost predicate EnvFits(k: Knowledge, env: Env) {
    forall n :: n in k ==> n in env && Fits(k[n], env[n])
  }

  lemma {:induction false} EvalFits(e: Expr, k: Knowledge, env: Env, w: World)
    requires EnvFits(k, env) && Eval(e, env, w).Some?
    ensures Fits(Know(e, k), Eval(e, env, w).value)
    decreases e, 1
  {
    if e.Dict? {
      ItemsFit(e.items, k, env, w);
    }
  }

  lemma {:induction false} ItemsFit(items: seq<Item>, k: Knowledge, env: Env, w: World)
    requires EnvFits(k, env) && EvalItems(items, env, w).Some?
    ensures Fits(KnowItems(items, k), Mapping(EvalItems(items, env, w).value))
    decreases items, 0
  {
    if |items| > 0 {
      ItemFits(items[0], k, env, w);
      ItemsFit(items[1..], k, env, w);
    }
  }

  lemma {:induction false} ItemFits(item: Item, k: Knowledge, env: Env, w: World)
    requires EnvFits(k, env) && EvalItem(item, env, w).Some?
    ensures Fits(KnowItem(item, k), Mapping(EvalItem(item, env, w).value))
    decreases item, 0
  {
    EvalFits(item.value, k, env, w);
  }

  lemma {:induction false} ExecFits(body: seq<Stmt>, env: Env, w: World)
    requires Exec(body, env, w).Some?
    ensures EnvFits(KnowBody(body), Exec(body, env, w).value)
  {
    if |body| > 0 {
      var before, last := body[..|body| - 1], body[|body| - 1];
      ExecFits(before, env, w);
      if last.Assign? {
        EvalFits(last.value, KnowBody(before), Exec(before, env, w).value, w);
      }
    }
  }

  // Whatever the rest of the module does, every key read is a key of the dict that Python builds.
  lemma ReadingSound(body: seq<Stmt>, env: Env, w: World, name: string)
    requires Undisturbed(body) && Exec(body, env, w).Some? && name in Scan(body)
    ensures var final := Exec(body, env, w).value;
            name in final && AllIn(Scan(body)[name], KeysOf(final[name]))
  {
    ScanCertain(body);
    ExecFits(body, env, w);
  }

  // The script records exactly the assignments to a name that ends in `_MODELS`.
  lemma {:induction false} RecordedIff(body: seq<Stmt>, name: string)
    ensures name in Scan(body) <==>
              && (exists i :: 0 <= i < |body| && body[i].Assign? && body[i].target == name)
              && exists stem :: name == stem + "_MODELS"
  {
    TableNameIff(name);
    if |body| > 0 {
      var before := body[..|body| - 1];
      RecordedIff(before, name);
      if i :| 0 <= i < |before| && before[i].Assign? && before[i].target == name {
        assert body[i] == before[i];
      }
    }
  }

  lemma TableNameIff(name: string)
    ensures IsTableName(name) <==> exists stem :: name == stem + "_MODELS"
  {
    if IsTableName(name) {
      assert name == name[..|name| - 7] + "_MODELS";
    }
    if stem :| name == stem + "_MODELS" {
      assert name[|name| - 7..] == "_MODELS";
    }
  }

  // What the script reports is in the dict that one of the two table names is bound to.
  lemma ReportSound(body: seq<Stmt>, env: Env, w: World)
    requires Undisturbed(body) && Exec(body, env, w).Some? && Architectures(Scan(body)).Some?
    ensures var final, reported := Exec(body, env, w).value, Architectures(Scan(body)).value;
            && reported != []
            && exists name :: name in {"_VLLM_MODELS", "_TEXT_GENERATION_MODELS"} && name in final
                              && AllIn(reported, KeysOf(final[name]))
  {
    var tables := Scan(body);
    var name := if "_VLLM_MODELS" in tables && tables["_VLLM_MODELS"] != [] then "_VLLM_MODELS"
                else "_TEXT_GENERATION_MODELS";
    ReadingSound(body, env, w, name);
    assert name in {"_VLLM_MODELS", "_TEXT_GENERATION_MODELS"};
  }

  predicate IsRead(body: seq<Stmt>, name: string) {
    name in Scan(body) && Scan(body)[name] != []
  }

  // The script reports the table of all models if it read any keys of it, else that of the text
  // models, and nothing exactly when it read no keys of either.
  lemma ReportIs(body: seq<Stmt>)
    ensures var report := Architectures(Scan(body));
            if IsRead(body, "_VLLM_MODELS") then report == Some(Scan(body)["_VLLM_MODELS"])
            else if IsRead(body, "_TEXT_GENERATION_MODELS") then report == Some(Scan(body)["_TEXT_GENERATION_MODELS"])
            else report == None
  {
  }

  /******* When the reading is complete *******/

  // A run in which everything that is not looked into is a mapping with one key, z.
  ghost function Generous(z: string): (w: World) {
    World(_ => Some(Mapping({z})), _ => Some(Some(z)), (_, _) => Some(Mapping({z})))
  }

  predicate AnyName(n: string) {
    true
  }

  ghost function GenerousEnv(z: string): (env: Env) {
    imap n: string | AnyName(n) :: Mapping({z})
  }

  ghost function Filled(c: Certain, z: string): (r: set<string>) {
    if c.open then c.keys + {z} else c.keys
  }

  // In a generous run every name is bound to a mapping, and z marks what was open.
  ghost predicate EnvFilled(k: Knowledge, env: Env, z: string) {
    forall n: string :: n in env && env[n] == Mapping(Filled(if n in k then k[n] else ANYTHING, z))
  }

  lemma {:induction false} EvalFilled(e: Expr, k: Knowledge, env: Env, z: string)
    requires EnvFilled(k, env, z)
    ensures Eval(e, env, Generous(z)) == Some(Mapping(Filled(Know(e, k), z)))
    decreases e, 1
  {
    assert Filled(ANYTHING, z) == {z};
    if e.Dict? {
      ItemsFilled(e.items, k, env, z);
    }
  }

  lemma {:induction false} ItemsFilled(items: seq<Item>, k: Knowledge, env: Env, z: string)
    requires EnvFilled(k, env, z)
    ensures EvalItems(items, env, Generous(z)) == Some(Filled(KnowItems(items, k), z))
    decreases items, 0
  {
    if |items| > 0 {
      ItemFilled(items[0], k, env, z);
      ItemsFilled(items[1..], k, env, z);
      var a, b := KnowItem(items[0], k), KnowItems(items[1..], k);
      assert Filled(a.Join(b), z) == Filled(a, z) + Filled(b, z);
    }
  }

  lemma {:induction false} ItemFilled(item: Item, k: Knowledge, env: Env, z: string)
    requires EnvFilled(k, env, z)
    ensures EvalItem(item, env, Generous(z)) == Some(Filled(KnowItem(item, k), z))
    decreases item, 0
  {
    EvalFilled(item.value, k, env, z);
    assert Filled(ANYTHING, z) == {z};
  }

  lemma {:induction false} ExecFilled(body: seq<Stmt>, z: string)
    ensures Exec(body, GenerousEnv(z), Generous(z)).Some?
    ensures EnvFilled(KnowBody(body), Exec(body, GenerousEnv(z), Generous(z)).value, z)
  {
    if |body| > 0 {
      var before, last := body[..|body| - 1], body[|body| - 1];
      ExecFilled(before, z);
      assert Filled(ANYTHING, z) == {z};
      if last.Assign? {
        EvalFilled(last.value, KnowBody(before), Exec(before, GenerousEnv(z), Generous(z)).value, z);
      }
    }
  }

  function KeySet(s: seq<string>): (r: set<string>) {
    set x | x in s
  }

  // In every run that finishes, the keys read are exactly the keys that Python builds.
  ghost predicate AlwaysComplete(body: seq<Stmt>, name: string)
    requires name in Scan(body)
  {
    forall env, w :: Exec(body, env, w).Some? ==>
      name in Exec(body, env, w).value && KeysOf(Exec(body, env, w).value[name]) == KeySet(Scan(body)[name])
  }

  // The table leaves nothing open, and was read in full.
  predicate ReadInFull(body: seq<Stmt>, name: string)
    requires name in Scan(body)
  {
    name in KnowBody(body) && KnowBody(body)[name] == Certain(KeySet(Scan(body)[name]), false)
  }

  function LongerThanAll(s: seq<string>): (z: string)
    ensures z !in s && forall i :: 0 <= i < |s| ==> |s[i]| < |z|
  {
    if |s| == 0 then "z"
    else
      var z := LongerThanAll(s[1..]);
      if |z| > |s[0]| then z else s[0] + "z"
  }

  // Whatever the module holds, the reading of a table is complete in every run exactly when the module
  // leaves nothing open in it and nothing was missed.
  lemma CompleteIff(body: seq<Stmt>, name: string)
    requires name in Scan(body)
    ensures AlwaysComplete(body, name) <==> ReadInFull(body, name)
  {
    var read := Scan(body)[name];
    if ReadInFull(body, name) {
      forall env, w | Exec(body, env, w).Some?
        ensures name in Exec(body, env, w).value && KeysOf(Exec(body, env, w).value[name]) == KeySet(read)
      {
        ExecFits(body, env, w);
      }
    }
    if AlwaysComplete(body, name) {
      var z := LongerThanAll(read);
      ExecFilled(body, z);
      var final := Exec(body, GenerousEnv(z), Generous(z)).value;
      assert KeysOf(final[name]) == KeySet(read);
      assert z !in KeySet(read);
    }
  }

  // In every run that finishes, the keys read are keys that Python builds.
  ghost predicate AlwaysSound(body: seq<Stmt>, name: string)
    requires name in Scan(body)
  {
    forall env, w :: Exec(body, env, w).Some? ==>
      AllIn(Scan(body)[name], if name in Exec(body, env, w).value then KeysOf(Exec(body, env, w).value[name]) else {})
  }

  function CertainKeys(body: seq<Stmt>, name: string): (r: set<string>) {
    if name in KnowBody(body) then KnowBody(body)[name].keys else {}
  }

  // Also where other statements bind table names, the reading is sound in every run exactly when
  // every key it found is certain.
  lemma SoundIff(body: seq<Stmt>, name: string)
    requires name in Scan(body)
    ensures AlwaysSound(body, name) <==> AllIn(Scan(body)[name], CertainKeys(body, name))
  {
    var read := Scan(body)[name];
    if AllIn(read, CertainKeys(body, name)) {
      forall env, w | Exec(body, env, w).Some?
        ensures AllIn(read, if name in Exec(body, env, w).value then KeysOf(Exec(body, env, w).value[name]) else {})
      {
        ExecFits(body, env, w);
      }
    }
    if AlwaysSound(body, name) {
      var z := LongerThanAll(read);
      ExecFilled(body, z);
      var final := Exec(body, GenerousEnv(z), Generous(z)).value;
      assert AllIn(read, KeysOf(final[name]));
      assert forall i :: 0 <= i < |read| ==> read[i] != z;
    }
  }

  /******* The shape of tables that are read in full *******/

  // Every key is a constant, and every spread is such a display again or a table of that shape.
  predicate Plain(e: Expr, plain: set<string>)
    decreases e, 1
  {
    match e
    case Name(id) => id in plain
    case Dict(items) => forall i :: 0 <= i < |items| ==> PlainItem(items[i], plain)
    case Other(_) => false
  }

  predicate PlainItem(item: Item, plain: set<string>)
    decreases item, 0
  {
    match item.key
    case Spread => Plain(item.value, plain)
    case StringKey(_) => true
    case OtherKey => true
    case Computed(_) => false
  }

  function PlainTables(body: seq<Stmt>): (r: set<string>) {
    if |body| == 0 then {}
    else
      var plain := PlainTables(body[..|body| - 1]);
      match body[|body| - 1]
      case Assign(target, e) =>
        if IsTableName(target) && Plain(e, plain) then plain + {target} else plain - {target}
      case Binds(names, _) => plain - names
  }

  ghost predicate Agree(tables: Tables, k: Knowledge, plain: set<string>) {
    forall n :: n in plain ==> n in tables && n in k && k[n] == Certain(KeySet(tables[n]), false)
  }

  lemma {:induction false} PlainAgrees(e: Expr, tables: Tables, k: Knowledge, plain: set<string>)
    requires Agree(tables, k, plain) && Plain(e, plain)
    ensures Know(e, k) == Certain(KeySet(StringKeys(e, tables)), false)
    decreases e, 1
  {
    if e.Dict? {
      PlainItemsAgree(e.items, tables, k, plain);
    }
  }

  lemma {:induction false} PlainItemsAgree(items: seq<Item>, tables: Tables, k: Knowledge, plain: set<string>)
    requires Agree(tables, k, plain) && forall i :: 0 <= i < |items| ==> PlainItem(items[i], plain)
    ensures KnowItems(items, k) == Certain(KeySet(ItemKeys(items, tables)), false)
    decreases items, 0
  {
    if |items| > 0 {
      PlainItemAgrees(items[0], tables, k, plain);
      PlainItemsAgree(items[1..], tables, k, plain);
      var a, b := ItemKey(items[0], tables), ItemKeys(items[1..], tables);
      assert KeySet(a + b) == KeySet(a) + KeySet(b);
    }
  }

  lemma {:induction false} PlainItemAgrees(item: Item, tables: Tables, k: Knowledge, plain: set<string>)
    requires Agree(tables, k, plain) && PlainItem(item, plain)
    ensures KnowItem(item, k) == Certain(KeySet(ItemKey(item, tables)), false)
    decreases item, 0
  {
    match item.key
    case Spread => PlainAgrees(item.value, tables, k, plain);
    case StringKey(s) => assert KeySet([s]) == {s};
    case OtherKey => assert KeySet([]) == {};
  }

  // Through any number of spreads and reassignments, plain tables are read in full.
  lemma {:induction false} PlainTablesReadInFull(body: seq<Stmt>)
    ensures Agree(Scan(body), KnowBody(body), PlainTables(body))
  {
    if |body| > 0 {
      var before, last := body[..|body| - 1], body[|body| - 1];
      PlainTablesReadInFull(before);
      if last.Assign? && IsTableName(last.target) && Plain(last.value, PlainTables(before)) {
        PlainAgrees(last.value, Scan(before), KnowBody(before), PlainTables(before));
      }
    }
  }

  // Of a plain table, in every run, the keys read are exactly the keys of the dict that Python builds.
  lemma PlainTablesComplete(body: seq<Stmt>, name: string)
    requires name in PlainTables(body)
    ensures name in Scan(body) && AlwaysComplete(body, name)
  {
    PlainTablesReadInFull(body);
    CompleteIff(body, name);
  }

  // If the reported table is plain, the report is the set of keys that Python builds for it.
  lemma ReportComplete(body: seq<Stmt>, env: Env, w: World)
    requires Exec(body, env, w).Some?
    ensures var final := Exec(body, env, w).value;
            && (IsRead(body, "_VLLM_MODELS") && "_VLLM_MODELS" in PlainTables(body) ==>
                  && Architectures(Scan(body)).Some? && "_VLLM_MODELS" in final
                  && KeySet(Architectures(Scan(body)).value) == KeysOf(final["_VLLM_MODELS"]))
            && (!IsRead(body, "_VLLM_MODELS") && IsRead(body, "_TEXT_GENERATION_MODELS")
                && "_TEXT_GENERATION_MODELS" in PlainTables(body) ==>
                  && Architectures(Scan(body)).Some? && "_TEXT_GENERATION_MODELS" in final
                  && KeySet(Architectures(Scan(body)).value) == KeysOf(final["_TEXT_GENERATION_MODELS"]))
  {
    ReportIs(body);
    if "_VLLM_MODELS" in PlainTables(body) {
      PlainTablesComplete(body, "_VLLM_MODELS");
    }
    if "_TEXT_GENERATION_MODELS" in PlainTables(body) {
      PlainTablesComplete(body, "_TEXT_GENERATION_MODELS");
    }
  }

  // What is not plain is open.
  ghost predicate OthersOpen(k: Knowledge, plain: set<string>) {
    forall n :: n in k && n !in plain ==> k[n].open
  }

  lemma {:induction false} NotPlainIsOpen(e: Expr, k: Knowledge, plain: set<string>)
    requires OthersOpen(k, plain) && !Plain(e, plain)
    ensures Know(e, k).open
    decreases e, 1
  {
    if e.Dict? {
      NotPlainItemsOpen(e.items, k, plain);
    }
  }

  lemma {:induction false} NotPlainItemsOpen(items: seq<Item>, k: Knowledge, plain: set<string>)
    requires OthersOpen(k, plain) && exists i :: 0 <= i < |items| && !PlainItem(items[i], plain)
    ensures KnowItems(items, k).open
    decreases items, 0
  {
    if PlainItem(items[0], plain) {
      var i :| 0 <= i < |items| && !PlainItem(items[i], plain);
      assert items[1..][i - 1] == items[i];
      NotPlainItemsOpen(items[1..], k, plain);
    } else {
      NotPlainItemOpen(items[0], k, plain);
    }
  }

  lemma {:induction false} NotPlainItemOpen(item: Item, k: Knowledge, plain: set<string>)
    requires OthersOpen(k, plain) && !PlainItem(item, plain)
    ensures KnowItem(item, k).open
    decreases item, 0
  {
    if item.key.Spread? {
      NotPlainIsOpen(item.value, k, plain);
    }
  }

  // Assignments to names that are not tables assign neither displays nor names.
  ghost predicate TablesOnly(body: seq<Stmt>) {
    forall i :: 0 <= i < |body| && body[i].Assign? ==> IsTableName(body[i].target) || body[i].value.Other?
  }

  lemma {:induction false} OthersStayOpen(body: seq<Stmt>)
    requires TablesOnly(body)
    ensures OthersOpen(KnowBody(body), PlainTables(body))
  {
    if |body| > 0 {
      var before, last := body[..|body| - 1], body[|body| - 1];
      OthersStayOpen(before);
      if last.Assign? && !Plain(last.value, PlainTables(before)) {
        NotPlainIsOpen(last.value, KnowBody(before), PlainTables(before));
      }
    }
  }

  // Where only tables are assigned displays or names, the reading of a table is complete in every run
  // exactly when the table is plain: constant keys, and spreads of such displays and tables.
  lemma CompleteIffPlain(body: seq<Stmt>, name: string)
    requires TablesOnly(body) && name in Scan(body)
    ensures AlwaysComplete(body, name) <==> name in PlainTables(body)
  {
    CompleteIff(body, name);
    PlainTablesReadInFull(body);
    OthersStayOpen(body);
  }

  // A table that another statement binds again is misread: `A_MODELS = {"k": x}; A_MODELS: dict = f()`.
  lemma ReboundTableMisread()
    ensures var body := [Assign("A_MODELS", Dict([Item(StringKey("k"), Other(0))])), Binds({"A_MODELS"}, 1)];
            "A_MODELS" in Scan(body) && !AlwaysSound(body, "A_MODELS")
  {
    var table := Assign("A_MODELS", Dict([Item(StringKey("k"), Other(0))]));
    var body := [table, Binds({"A_MODELS"}, 1)];
    assert body[..1] == [table] && [table][..0] == [];
    assert "A_MODELS"[1..] == SUFFIX;
    assert ItemKeys([Item(StringKey("k"), Other(0))], map[])[0] == "k";
    SoundIff(body, "A_MODELS");
    assert Scan(body)["A_MODELS"][0] == "k";
  }

  // A computed key is missed: `A_MODELS = {f(): x}`.
  lemma ComputedKeyMissed()
    ensures var body := [Assign("A_MODELS", Dict([Item(Computed(0), Other(1))]))];
            "A_MODELS" in Scan(body) && !AlwaysComplete(body, "A_MODELS")
  {
    var items := [Item(Computed(0), Other(1))];
    var body := [Assign("A_MODELS", Dict(items))];
    assert body[..0] == [];
    assert "A_MODELS"[1..] == SUFFIX;
    CompleteIff(body, "A_MODELS");
    assert KnowItems(items, map[]) == KnowItem(items[0], map[]).Join(KnowItems(items[1..], map[]));
  }
}
