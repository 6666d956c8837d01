/**
 `DBMgr`: the owning map of databases by name, the aliased default pointer, the initialisation
 loop over the configuration, and what any run of calls after it keeps.  Whether a connection can
 be opened is part of the input.
 */
module DbManager {
  import opened CText

  /** `MysqlDB`, as far as the manager sees it. */
  class MysqlDB {
    const name: string
    var updates: nat
    var flushes: nat

    constructor (name: string)
      ensures this.name == name && updates == 0 && flushes == 0
    {
      this.name := name;
      updates, flushes := 0, 0;
    }

    method OnUpdate()
      modifies this
      ensures updates == old(updates) + 1 && flushes == old(flushes)
    {
      updates := updates + 1;
    }

    method Flush()
      modifies this
      ensures flushes == old(flushes) + 1 && updates == old(updates)
    {
      flushes := flushes + 1;
    }
  }

  /** A section `[Database<i>]`; `connects` says whether `MysqlDB::Init` will succeed. */
  datatype Section = Section(name: string, isDefault: nat, connects: bool)
  datatype Config = Config(num: nat, sections: map<string, Section>) {
    predicate WellFormed() {
      num < TWO_32
    }

    /** The section name of index `i`, which `%d` prints as a signed number. */
    function SectionName(i: nat): string {
      "Database" + Dec(ToSigned(i, TWO_32))
    }

    predicate Has(i: nat) {
      SectionName(i) in sections
    }

    function At(i: nat): Section
      requires Has(i)
    {
      sections[SectionName(i)]
    }

    predicate Marked(i: nat) {
      Has(i) && At(i).isDefault > 0
    }

    /** Sections 1 to `k` exist, can be opened and have pairwise distinct names. */
    ghost predicate Usable(k: nat) {
      && (forall i :: 1 <= i <= k ==> Has(i) && At(i).connects)
      && (forall i, j :: 1 <= i < j <= k ==> At(i).name != At(j).name)
    }

    /** `m` is the one marked section among 1 to `k`. */
    ghost predicate OnlyDefault(k: nat, m: nat) {
      1 <= m <= k && Marked(m) && forall i :: 1 <= i <= k && Marked(i) ==> i == m
    }

    /**
     What `OnInitialize` accepts.  The largest uint32 is out: the loop's `i <= dbNum` is then
     always true and the counter wraps back to a section that is already there.
     */
    ghost predicate Accepted() {
      num == 0 || (num < TWO_32 - 1 && Usable(num) && exists m :: OnlyDefault(num, m))
    }
  }

  /** The name of a section is the word and the index in decimal, from 2^31 on as a negative number. */
  lemma SectionNameReads(cfg: Config, i: nat)
    requires i < TWO_32
    ensures var n := if i < TWO_31 then i else i - TWO_32;
            && cfg.SectionName(i) == "Database" + Dec(n)
            && cfg.SectionName(i)[..8] == "Database" && ScanInt(cfg.SectionName(i)[8..]) == Some((n, ""))
  {
    var n := if i < TWO_31 then i else i - TWO_32;
    assert ToSigned(i, TWO_32) == n;
    DecRoundTrip(n, "");
    assert Dec(n) + "" == Dec(n) && ("Database" + Dec(n))[8..] == Dec(n);
  }

  /** What a configuration is accepted for, in terms of its sections `Database1` to `Database<num>` alone. */
  ghost predicate AcceptedSections(num: nat, sections: map<string, Section>) {
    num == 0 || (UsableSections(num, sections) && exists m :: OneDefault(num, sections, m))
  }

  ghost predicate OneDefault(num: nat, sections: map<string, Section>, m: nat)
    requires forall i :: 1 <= i <= num ==> "Database" + Dec(i) in sections
  {
    && 1 <= m <= num && sections["Database" + Dec(m)].isDefault > 0
    && forall i :: 1 <= i <= num && i != m ==> sections["Database" + Dec(i)].isDefault == 0
  }

  lemma SectionAt(cfg: Config, i: nat)
    requires i < TWO_31
    ensures cfg.Has(i) <==> "Database" + Dec(i) in cfg.sections
    ensures cfg.Has(i) ==> cfg.At(i) == cfg.sections["Database" + Dec(i)]
  {
    SectionNameReads(cfg, i);
  }

  /** Sections 1 to `k` exist under their plain names, can be opened and have distinct names. */
  ghost predicate UsableSections(k: nat, sections: map<string, Section>) {
    && (forall i :: 1 <= i <= k ==> "Database" + Dec(i) in sections && sections["Database" + Dec(i)].connects)
    && (forall i, j :: 1 <= i < j <= k ==>
          sections["Database" + Dec(i)].name != sections["Database" + Dec(j)].name)
  }

  lemma UsablePlainly(cfg: Config, k: nat)
    requires k < TWO_31
    ensures cfg.Usable(k) <==> UsableSections(k, cfg.sections)
  {
    if cfg.Usable(k) {
      forall i | 1 <= i <= k
        ensures "Database" + Dec(i) in cfg.sections && cfg.At(i) == cfg.sections["Database" + Dec(i)]
      {
        assert cfg.Has(i);
        SectionAt(cfg, i);
      }
    } else if UsableSections(k, cfg.sections) {
      forall i | 1 <= i <= k ensures cfg.Has(i) && cfg.At(i) == cfg.sections["Database" + Dec(i)] {
        assert "Database" + Dec(i) in cfg.sections;
        SectionAt(cfg, i);
      }
    }
  }

  lemma DefaultPlainly(cfg: Config, k: nat, m: nat)
    requires k < TWO_31 && UsableSections(k, cfg.sections)
    ensures cfg.OnlyDefault(k, m) <==> OneDefault(k, cfg.sections, m)
  {
    forall i | 1 <= i <= k ensures cfg.Marked(i) <==> cfg.sections["Database" + Dec(i)].isDefault > 0 {
      assert "Database" + Dec(i) in cfg.sections;
      SectionAt(cfg, i);
    }
  }

  /** A configuration with fewer than 2^31 sections is accepted for what its sections are, and for nothing else. */
  lemma AcceptedPlainly(cfg: Config)
    requires cfg.num < TWO_31
    ensures cfg.Accepted() <==> AcceptedSections(cfg.num, cfg.sections)
  {
    UsablePlainly(cfg, cfg.num);
    if UsableSections(cfg.num, cfg.sections) {
      forall m: nat ensures cfg.OnlyDefault(cfg.num, m) <==> OneDefault(cfg.num, cfg.sections, m) {
        DefaultPlainly(cfg, cfg.num, m);
      }
    }
  }

  /** The manager's fields after `k` sections. */
  ghost predicate BuiltUpTo(cfg: Config, k: nat, dbs: map<string, MysqlDB>, default: MysqlDB?) {
    NamesBuilt(cfg, k, dbs) && DefaultBuilt(cfg, k, dbs, default)
  }

  /** The map is exactly the names of sections 1 to `k`, each bound to a database of that name. */
  ghost predicate NamesBuilt(cfg: Config, k: nat, dbs: map<string, MysqlDB>) {
    && cfg.Usable(k)
    && (forall n :: n in dbs ==> dbs[n].name == n)
    && (forall i :: 1 <= i <= k ==> cfg.At(i).name in dbs)
    && (forall n :: n in dbs ==> NamedUpTo(cfg, k, n))
  }

  ghost predicate NamedUpTo(cfg: Config, k: nat, n: string) {
    exists i :: 1 <= i <= k && cfg.Has(i) && cfg.At(i).name == n
  }

  ghost predicate DefaultBuilt(cfg: Config, k: nat, dbs: map<string, MysqlDB>, default: MysqlDB?) {
    if default == null then forall i :: 1 <= i <= k ==> !cfg.Marked(i)
    else exists m :: DefaultIs(cfg, k, m, dbs, default)
  }

  ghost predicate DefaultIs(cfg: Config, k: nat, m: nat, dbs: map<string, MysqlDB>, default: MysqlDB?) {
    && cfg.OnlyDefault(k, m)
    && cfg.At(m).name in dbs && default == dbs[cfg.At(m).name]
  }

  ghost predicate FirstKnown(cfg: Config, dbs: map<string, MysqlDB>) {
    cfg.Has(1) && cfg.At(1).name in dbs
  }

  /** The loop before its next round, on section `LoopIndex(done)`, with the counter's wrap-around. */
  ghost predicate InLoop(cfg: Config, done: nat, dbs: map<string, MysqlDB>, default: MysqlDB?) {
    && done <= TWO_32
    && (cfg.num < TWO_32 - 1 ==> done <= cfg.num)
    && (done <= cfg.num ==> BuiltUpTo(cfg, done, dbs, default))
    && (1 <= done ==> FirstKnown(cfg, dbs))
  }

  /** The uint32 counter after `done` rounds. */
  function LoopIndex(done: nat): nat {
    (done + 1) % TWO_32
  }

  lemma LoopIndexFacts(done: nat)
    requires done <= TWO_32
    ensures done < TWO_32 - 1 ==> LoopIndex(done) == done + 1
    ensures done == TWO_32 - 1 ==> LoopIndex(done) == 0
    ensures done == TWO_32 ==> LoopIndex(done) == 1
  {
  }

  lemma NextIndex(done: nat, i: nat)
    requires done < TWO_32 && i == LoopIndex(done)
    ensures LoopIndex(done + 1) == (i + 1) % TWO_32
  {
  }

  lemma LoopExit(cfg: Config, done: nat, dbs: map<string, MysqlDB>, default: MysqlDB?)
    requires InLoop(cfg, done, dbs, default) && LoopIndex(done) > cfg.num
    ensures done == cfg.num < TWO_32 - 1
  {
    LoopIndexFacts(done);
  }

  /** Each early return of the loop is on a configuration that is not accepted. */
  lemma Refused(cfg: Config, done: nat, dbs: map<string, MysqlDB>, default: MysqlDB?)
    requires InLoop(cfg, done, dbs, default) && 0 < cfg.num && LoopIndex(done) <= cfg.num < TWO_32
    requires var i := LoopIndex(done);
             !cfg.Has(i) || cfg.At(i).name in dbs || !cfg.At(i).connects || (cfg.Marked(i) && default != null)
    ensures !cfg.Accepted()
  {
    LoopIndexFacts(done);
    if cfg.num < TWO_32 - 1 && default != null {
      var m :| DefaultIs(cfg, done, m, dbs, default);
    }
  }

  lemma LoopStart(cfg: Config)
    requires 0 < cfg.num
    ensures InLoop(cfg, 0, map[], null)
  {
  }

  /** A round that does not return early keeps the loop's state; it cannot be the second on section 1. */
  lemma LoopNext(cfg: Config, done: nat, dbs: map<string, MysqlDB>, default: MysqlDB?, db: MysqlDB)
    requires InLoop(cfg, done, dbs, default) && 0 < cfg.num && LoopIndex(done) <= cfg.num < TWO_32
    requires var i := LoopIndex(done);
             && cfg.Has(i) && cfg.At(i).connects && cfg.At(i).name !in dbs && db.name == cfg.At(i).name
             && (cfg.Marked(i) ==> default == null)
    ensures done < TWO_32
    ensures InLoop(cfg, done + 1, dbs[db.name := db], if cfg.Marked(LoopIndex(done)) then db else default)
  {
    LoopIndexFacts(done);
    if done + 1 <= cfg.num {
      NamesStep(cfg, done, dbs, db);
      DefaultStep(cfg, done, dbs, default, db);
    }
  }

  lemma NamesStep(cfg: Config, k: nat, dbs: map<string, MysqlDB>, db: MysqlDB)
    requires NamesBuilt(cfg, k, dbs)
    requires cfg.Has(k + 1) && cfg.At(k + 1).connects && cfg.At(k + 1).name == db.name && db.name !in dbs
    ensures NamesBuilt(cfg, k + 1, dbs[db.name := db])
  {
    var after := dbs[db.name := db];
    forall n | n in after ensures NamedUpTo(cfg, k + 1, n) {
      if n in dbs {
        assert NamedUpTo(cfg, k, n);
        var i :| 1 <= i <= k && cfg.Has(i) && cfg.At(i).name == n;
      }
    }
  }

  lemma DefaultStep(cfg: Config, k: nat, dbs: map<string, MysqlDB>, default: MysqlDB?, db: MysqlDB)
    requires DefaultBuilt(cfg, k, dbs, default)
    requires cfg.Has(k + 1) && cfg.At(k + 1).name == db.name && db.name !in dbs
    requires cfg.Marked(k + 1) ==> default == null
    ensures DefaultBuilt(cfg, k + 1, dbs[db.name := db], if cfg.Marked(k + 1) then db else default)
  {
    var after := dbs[db.name := db];
    if cfg.Marked(k + 1) {
      assert DefaultIs(cfg, k + 1, k + 1, after, db);
    } else if default != null {
      var m :| DefaultIs(cfg, k, m, dbs, default);
      assert DefaultIs(cfg, k + 1, m, after, default);
    }
  }

  /** At the end the default decides. */
  lemma FinalDefault(cfg: Config, dbs: map<string, MysqlDB>, default: MysqlDB?)
    requires 0 < cfg.num < TWO_32 - 1 && BuiltUpTo(cfg, cfg.num, dbs, default)
    ensures default != null <==> cfg.Accepted()
    ensures default != null ==> default.name in dbs && dbs[default.name] == default
    ensures forall n :: n in dbs ==> dbs[n].name == n
  {
    if default != null {
      var m :| DefaultIs(cfg, cfg.num, m, dbs, default);
    }
  }

  datatype Op = Create(name: string, connects: bool) | Get(name: string) | GetDefault | Update | FlushAll

  class DBMgr {
    var defaultDB: MysqlDB?
    var databases: map<string, MysqlDB>

    constructor ()
      ensures defaultDB == null && databases == map[]
    {
      defaultDB, databases := null, map[];
    }

    /** Every database is owned under its own name, the default is one of them. */
    ghost predicate Valid()
      reads this
    {
      && (forall n :: n in databases ==> databases[n].name == n)
      && (defaultDB != null ==> defaultDB.name in databases && databases[defaultDB.name] == defaultDB)
    }

    /** So no database has two owners. */
    lemma OneOwner(n: string, m: string)
      requires Valid() && n in databases && m in databases && n != m
      ensures databases[n] != databases[m]
    {
      assert databases[n].name == n && databases[m].name == m;
    }

    ghost function Owned(): set<MysqlDB>
      reads this
    {
      set n | n in databases :: databases[n]
    }

    /** How often each owned database was updated and flushed. */
    ghost function View(): map<string, Counts>
      reads this, Owned()
    {
      map n | n in databases :: Counts(databases[n].updates, databases[n].flushes)
    }

    ghost function Default(): Option<string>
      reads this
    {
      if defaultDB == null then None else Some(defaultDB.name)
    }

    /** `CreateMysqlDB`: a null pointer when the connection fails. */
    static method CreateMysqlDB(name: string, connects: bool) returns (db: MysqlDB?)
      ensures db == null <==> !connects
      ensures db != null ==> fresh(db) && db.name == name && db.updates == 0 && db.flushes == 0
    {
      var created := new MysqlDB(name);
      db := if connects then created else null;
    }

    // ---------- initialisation ----------

    /** The map is exactly names to their databases and the default is the marked one. */
    ghost predicate HoldsConfig(cfg: Config)
      reads this
    {
      if cfg.num == 0 then databases == map[] && defaultDB == null
      else BuiltUpTo(cfg, cfg.num, databases, defaultDB) && defaultDB != null
    }

    /**
     `OnInitialize` on a fresh manager: it returns true exactly for the accepted configurations,
     and then holds exactly what the configuration says.
     */
    method OnInitialize(cfg: Config) returns (ok: bool)
      requires cfg.WellFormed() && databases == map[] && defaultDB == null
      modifies this
      ensures ok <==> cfg.Accepted()
      ensures ok ==> HoldsConfig(cfg) && Valid()
      ensures cfg.num < TWO_31 ==> (ok <==> AcceptedSections(cfg.num, cfg.sections))
      ensures ok && cfg.num < TWO_31 ==> HoldsSections(cfg.num, cfg.sections)
    {
      if cfg.num < TWO_31 {
        AcceptedPlainly(cfg);
      }
      if cfg.num == 0 {
        return true;
      }
      ok := InitSections(cfg);
      if !ok {
        return false;
      }
      FinalDefault(cfg, databases, defaultDB);
      ok := defaultDB != null;
      if ok && cfg.num < TWO_31 {
        HoldsPlainly(cfg);
      }
    }

    /** The map binds exactly the names in sections `Database1` to `Database<num>`, the default is the marked one. */
    ghost predicate HoldsSections(num: nat, sections: map<string, Section>)
      requires AcceptedSections(num, sections)
      reads this
    {
      && (forall n :: n in databases ==> databases[n].name == n)
      && (forall i :: 1 <= i <= num ==> sections["Database" + Dec(i)].name in databases)
      && (forall n :: n in databases ==> exists i :: 1 <= i <= num && sections["Database" + Dec(i)].name == n)
      && (forall i :: 1 <= i <= num && sections["Database" + Dec(i)].isDefault > 0 ==>
            defaultDB == databases[sections["Database" + Dec(i)].name])
    }

    lemma HoldsPlainly(cfg: Config)
      requires 0 < cfg.num < TWO_31 && HoldsConfig(cfg) && AcceptedSections(cfg.num, cfg.sections)
      ensures HoldsSections(cfg.num, cfg.sections)
    {
      forall i | 1 <= i <= cfg.num
        ensures cfg.Has(i) && cfg.At(i) == cfg.sections["Database" + Dec(i)]
      {
        assert "Database" + Dec(i) in cfg.sections;
        SectionAt(cfg, i);
      }
      forall n | n in databases ensures exists i :: 1 <= i <= cfg.num && cfg.sections["Database" + Dec(i)].name == n {
        assert NamedUpTo(cfg, cfg.num, n);
        var i :| 1 <= i <= cfg.num && cfg.Has(i) && cfg.At(i).name == n;
        assert cfg.sections["Database" + Dec(i)].name == n;
      }
      var m :| DefaultIs(cfg, cfg.num, m, databases, defaultDB);
      forall i | 1 <= i <= cfg.num && cfg.sections["Database" + Dec(i)].isDefault > 0
        ensures defaultDB == databases[cfg.sections["Database" + Dec(i)].name]
      {
        assert cfg.Marked(i) && i == m;
      }
    }

    /** The loop over the sections, with its early returns. */
    method InitSections(cfg: Config) returns (ok: bool)
      requires 0 < cfg.num < TWO_32 && databases == map[] && defaultDB == null
      modifies this
      ensures !ok ==> !cfg.Accepted()
      ensures ok ==> cfg.num < TWO_32 - 1 && BuiltUpTo(cfg, cfg.num, databases, defaultDB)
    {
      var i := 1;
      ghost var done: nat := 0;
      LoopStart(cfg);
      while i <= cfg.num
        invariant i == LoopIndex(done)
        invariant InLoop(cfg, done, databases, defaultDB)
        decreases TWO_32 - done
      {
        ok := InitSection(cfg, i, done);
        if !ok {
          return false;
        }
        done := done + 1;
        i := (i + 1) % TWO_32;
      }
      LoopExit(cfg, done, databases, defaultDB);
      ok := true;
    }

    /** One round of the loop, on section `i` after `done` rounds. */
    method InitSection(cfg: Config, i: nat, ghost done: nat) returns (ok: bool)
      requires 0 < cfg.num && i == LoopIndex(done) <= cfg.num < TWO_32
      requires InLoop(cfg, done, databases, defaultDB)
      modifies this
      ensures !ok ==> !cfg.Accepted()
      ensures ok ==> done < TWO_32 && InLoop(cfg, done + 1, databases, defaultDB)
      ensures ok ==> LoopIndex(done + 1) == (i + 1) % TWO_32
    {
      if !cfg.Has(i) {
        Refused(cfg, done, databases, defaultDB);
        return false;
      }
      var section := cfg.At(i);
      if section.name in databases {
        Refused(cfg, done, databases, defaultDB);
        return false;
      }
      ok := Open(cfg, section, done);
      if ok {
        NextIndex(done, i);
      }
    }

    /** The middle of a round: connect, then register. */
    method Open(cfg: Config, section: Section, ghost done: nat) returns (ok: bool)
      requires 0 < cfg.num < TWO_32 && LoopIndex(done) <= cfg.num
      requires InLoop(cfg, done, databases, defaultDB)
      requires cfg.Has(LoopIndex(done)) && section == cfg.At(LoopIndex(done)) && section.name !in databases
      modifies this
      ensures !ok ==> !cfg.Accepted()
      ensures ok ==> done < TWO_32 && InLoop(cfg, done + 1, databases, defaultDB)
    {
      var newDB := CreateMysqlDB(section.name, section.connects);
      if newDB == null {
        Refused(cfg, done, databases, defaultDB);
        return false;
      }
      ok := Register(cfg, section, newDB, done);
    }

    /** The end of a round: choose the default and own the new database. */
    method Register(cfg: Config, section: Section, newDB: MysqlDB, ghost done: nat) returns (ok: bool)
      requires 0 < cfg.num < TWO_32 && LoopIndex(done) <= cfg.num
      requires InLoop(cfg, done, databases, defaultDB)
      requires cfg.Has(LoopIndex(done)) && section == cfg.At(LoopIndex(done)) && section.connects
      requires section.name !in databases && newDB.name == section.name
      modifies this
      ensures !ok ==> !cfg.Accepted()
      ensures ok ==> done < TWO_32 && InLoop(cfg, done + 1, databases, defaultDB)
    {
      ghost var before, oldDefault := databases, defaultDB;
      if section.isDefault > 0 {
        if defaultDB != null {
          Refused(cfg, done, databases, defaultDB);
          return false;
        }
        defaultDB := newDB;
      }
      databases := databases[section.name := newDB];
      LoopNext(cfg, done, before, oldDefault, newDB);
      ok := true;
    }

    // ---------- lookups and updates ----------

    method GetDatabase(name: string) returns (db: MysqlDB?)
      ensures db == if name in databases then databases[name] else null
    {
      if name in databases {
        return databases[name];
      }
      db := null;
    }

    method GetDefaultDatabase() returns (db: MysqlDB?)
      ensures db == defaultDB
    {
      db := defaultDB;
    }

    /** `CreateDatabase`: null and no change for a known name or a failed connection. */
    method CreateDatabase(name: string, connects: bool) returns (db: MysqlDB?)
      requires Valid()
      modifies this`databases
      ensures Valid()
      ensures db == null <==> name in old(databases) || !connects
      ensures db == null ==> databases == old(databases)
      ensures db != null ==> fresh(db) && db.updates == 0 && db.flushes == 0
                             && databases == old(databases)[name := db]
      ensures View() == After(old(View()), Default(), Create(name, connects)).0
    {
      if name in databases {
        return null;
      }
      db := CreateMysqlDB(name, connects);
      if db == null {
        return;
      }
      databases := databases[name := db];
    }

    /** `OnUpdate`: every owned database once, whatever the order, and nothing else. */
    method OnUpdate()
      requires Valid()
      modifies Owned()
      ensures forall n :: n in databases ==>
                && databases[n].updates == old(databases[n].updates) + 1
                && databases[n].flushes == old(databases[n].flushes)
      ensures View() == After(old(View()), Default(), Update).0
    {
      var todo := databases.Keys;
      while todo != {}
        invariant todo <= databases.Keys
        invariant forall n :: n in databases ==>
                    && databases[n].updates == old(databases[n].updates) + (if n in todo then 0 else 1)
                    && databases[n].flushes == old(databases[n].flushes)
        decreases todo
      {
        var n :| n in todo;
        databases[n].OnUpdate();
        todo := todo - {n};
        forall m | m in databases && m != n ensures databases[m] != databases[n] {
          OneOwner(m, n);
        }
      }
    }

    /** `Flush`: likewise. */
    method Flush()
      requires Valid()
      modifies Owned()
      ensures forall n :: n in databases ==>
                && databases[n].flushes == old(databases[n].flushes) + 1
                && databases[n].updates == old(databases[n].updates)
      ensures View() == After(old(View()), Default(), FlushAll).0
    {
      var todo := databases.Keys;
      while todo != {}
        invariant todo <= databases.Keys
        invariant forall n :: n in databases ==>
                    && databases[n].flushes == old(databases[n].flushes) + (if n in todo then 0 else 1)
                    && databases[n].updates == old(databases[n].updates)
        decreases todo
      {
        var n :| n in todo;
        databases[n].Flush();
        todo := todo - {n};
        forall m | m in databases && m != n ensures databases[m] != databases[n] {
          OneOwner(m, n);
        }
      }
    }
  }

  // ---------- runs ----------

  /** The simple form of the manager: by name, how often each owned database was updated and flushed. */
  datatype Counts = Counts(updates: nat, flushes: nat)

  /** One call on the simple form: what it leaves, and the name of the database it returns. */
  function After(view: map<string, Counts>, default: Option<string>, op: Op): (map<string, Counts>, Option<string>) {
    match op
    case Create(name, connects) =>
      if name in view || !connects then (view, None) else (view[name := Counts(0, 0)], Some(name))
    case Get(name) => (view, if name in view then Some(name) else None)
    case GetDefault => (view, default)
    case Update => (map n | n in view :: view[n].(updates := view[n].updates + 1), None)
    case FlushAll => (map n | n in view :: view[n].(flushes := view[n].flushes + 1), None)
  }

  /** A run of calls: what it leaves. */
  function ViewAfter(view: map<string, Counts>, default: Option<string>, ops: seq<Op>): map<string, Counts> {
    if ops == [] then view
    else After(ViewAfter(view, default, ops[..|ops| - 1]), default, ops[|ops| - 1]).0
  }

  /** What call `k` of a run returns. */
  function AnswerOf(view: map<string, Counts>, default: Option<string>, ops: seq<Op>, k: nat): Option<string>
    requires k < |ops|
  {
    After(ViewAfter(view, default, ops[..k]), default, ops[k]).1
  }

  /** The object returned is the one the map binds to the name. */
  ghost predicate Answers(dbs: map<string, MysqlDB>, result: MysqlDB?, answer: Option<string>) {
    match answer
    case None => result == null
    case Some(name) => name in dbs && result == dbs[name]
  }

  ghost predicate BindingsKept(before: map<string, MysqlDB>, after: map<string, MysqlDB>) {
    forall n :: n in before ==> n in after && after[n] == before[n]
  }

  /** Any call does what the simple form says, and keeps every binding and the default. */
  method OneCall(mgr: DBMgr, op: Op) returns (result: MysqlDB?)
    requires mgr.Valid()
    modifies mgr`databases, mgr.Owned()
    ensures mgr.Valid() && mgr.defaultDB == old(mgr.defaultDB)
    ensures BindingsKept(old(mgr.databases), mgr.databases) && fresh(mgr.Owned() - old(mgr.Owned()))
    ensures mgr.View() == After(old(mgr.View()), mgr.Default(), op).0
    ensures Answers(mgr.databases, result, After(old(mgr.View()), mgr.Default(), op).1)
  {
    match op {
      case Create(name, connects) => result := mgr.CreateDatabase(name, connects);
      case Get(name) => result := mgr.GetDatabase(name);
      case GetDefault => result := mgr.GetDefaultDatabase();
      case Update =>
        mgr.OnUpdate();
        result := null;
      case FlushAll =>
        mgr.Flush();
        result := null;
    }
  }

  /** The results so far are the answers of the simple form. */
  ghost predicate AllAnswered(dbs: map<string, MysqlDB>, results: seq<MysqlDB?>,
      view: map<string, Counts>, default: Option<string>, ops: seq<Op>)
  {
    |results| <= |ops|
    && forall j :: 0 <= j < |results| ==> Answers(dbs, results[j], AnswerOf(view, default, ops, j))
  }

  lemma NextAnswered(before: map<string, MysqlDB>, dbs: map<string, MysqlDB>, results: seq<MysqlDB?>,
      result: MysqlDB?, view: map<string, Counts>, default: Option<string>, ops: seq<Op>)
    requires AllAnswered(before, results, view, default, ops) && BindingsKept(before, dbs)
    requires |results| < |ops| && Answers(dbs, result, AnswerOf(view, default, ops, |results|))
    ensures AllAnswered(dbs, results + [result], view, default, ops)
  {
    forall j | 0 <= j < |results| ensures Answers(dbs, results[j], AnswerOf(view, default, ops, j)) {
      assert Answers(before, results[j], AnswerOf(view, default, ops, j));
    }
  }

  /**
   Any run of calls on a valid manager refines the simple form: every binding and the default stay,
   each call returns the binding current at that call, and the counters are those of the simple form.
   */
  method RunCalls(mgr: DBMgr, ops: seq<Op>) returns (results: seq<MysqlDB?>)
    requires mgr.Valid()
    modifies mgr`databases, mgr.Owned()
    ensures mgr.Valid() && mgr.defaultDB == old(mgr.defaultDB)
    ensures BindingsKept(old(mgr.databases), mgr.databases)
    ensures mgr.View() == ViewAfter(old(mgr.View()), mgr.Default(), ops)
    ensures |results| == |ops|
    ensures forall k :: 0 <= k < |ops| ==>
              Answers(mgr.databases, results[k], AnswerOf(old(mgr.View()), mgr.Default(), ops, k))
  {
    results := [];
    ghost var view, default := mgr.View(), mgr.Default();
    for k := 0 to |ops|
      invariant mgr.Valid() && mgr.defaultDB == old(mgr.defaultDB) && mgr.Default() == default
      invariant BindingsKept(old(mgr.databases), mgr.databases) && fresh(mgr.Owned() - old(mgr.Owned()))
      invariant mgr.View() == ViewAfter(view, default, ops[..k])
      invariant |results| == k && AllAnswered(mgr.databases, results, view, default, ops)
    {
      ghost var before := mgr.databases;
      var result := OneCall(mgr, ops[k]);
      assert ops[..k + 1][..k] == ops[..k];
      NextAnswered(before, mgr.databases, results, result, view, default, ops);
      results := results + [result];
    }
    assert ops[..|ops|] == ops;
  }

  // ---------- what the simple form keeps ----------

  function UpdatesIn(ops: seq<Op>): nat {
    if ops == [] then 0 else UpdatesIn(ops[..|ops| - 1]) + if ops[|ops| - 1].Update? then 1 else 0
  }

  function FlushesIn(ops: seq<Op>): nat {
    if ops == [] then 0 else FlushesIn(ops[..|ops| - 1]) + if ops[|ops| - 1].FlushAll? then 1 else 0
  }

  /** Only a creation that connects adds a name; lookups, updates and flushes never grow the map. */
  lemma {:induction false} NamesOfRun(view: map<string, Counts>, default: Option<string>, ops: seq<Op>, n: string)
    ensures n in ViewAfter(view, default, ops) <==> n in view || Create(n, true) in ops
  {
    if ops != [] {
      var init, last := ops[..|ops| - 1], ops[|ops| - 1];
      NamesOfRun(view, default, init, n);
      NamesOfCall(ViewAfter(view, default, init), default, last, n);
      assert ops == init + [last];
    }
  }

  lemma NamesOfCall(view: map<string, Counts>, default: Option<string>, op: Op, n: string)
    ensures n in After(view, default, op).0 <==> n in view || op == Create(n, true)
  {
  }

  /**
   From any point of a run on, a database that is there is reached by every update and every flush
   that follows; so one created in the run counts exactly those after its creation.
   */
  lemma {:induction false} CountsOfRun(view: map<string, Counts>, default: Option<string>, ops: seq<Op>,
      k: nat, n: string)
    requires k <= |ops| && n in ViewAfter(view, default, ops[..k])
    ensures n in ViewAfter(view, default, ops)
    ensures var before, now := ViewAfter(view, default, ops[..k])[n], ViewAfter(view, default, ops)[n];
            && now.updates == before.updates + UpdatesIn(ops) - UpdatesIn(ops[..k])
            && now.flushes == before.flushes + FlushesIn(ops) - FlushesIn(ops[..k])
    decreases |ops|
  {
    if k == |ops| {
      assert ops[..k] == ops;
    } else {
      var init := ops[..|ops| - 1];
      assert init[..k] == ops[..k];
      CountsOfRun(view, default, init, k, n);
      CountsOfCall(ViewAfter(view, default, init), default, ops[|ops| - 1], n);
    }
  }

  lemma CountsOfCall(view: map<string, Counts>, default: Option<string>, op: Op, n: string)
    requires n in view
    ensures var now := After(view, default, op).0;
            && n in now
            && now[n].updates == view[n].updates + (if op.Update? then 1 else 0)
            && now[n].flushes == view[n].flushes + (if op.FlushAll? then 1 else 0)
  {
  }

  /** A creation succeeds exactly when it connects and the name is new, and then starts at zero. */
  lemma CreatedFresh(view: map<string, Counts>, default: Option<string>, ops: seq<Op>, k: nat)
    requires k < |ops| && ops[k].Create?
    ensures AnswerOf(view, default, ops, k).Some?
            <==> ops[k].connects && ops[k].name !in view && Create(ops[k].name, true) !in ops[..k]
    ensures AnswerOf(view, default, ops, k).Some? ==>
              && ops[k].name in ViewAfter(view, default, ops[..k + 1])
              && ViewAfter(view, default, ops[..k + 1])[ops[k].name] == Counts(0, 0)
  {
    NamesOfRun(view, default, ops[..k], ops[k].name);
    assert ops[..k + 1][..k] == ops[..k];
  }
}
