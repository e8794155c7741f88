/** Schema migrations: each runs in its own transaction together with the version it leads to. */
module Schema {
  import opened Faults

  /** The tables after these migrations, in order. */
  function Migrate<T>(migrations: seq<T -> T>, tables: T): (r: T)
    decreases |migrations|
  {
    if migrations == [] then tables else migrations[|migrations| - 1](Migrate(migrations[..|migrations| - 1], tables))
  }

  /** The result is reached step by step: each migration takes the tables the one before it left. */
  lemma {:induction false} MigrateSteps<T>(migrations: seq<T -> T>, tables: T) returns (steps: seq<T>)
    ensures |steps| == |migrations| + 1 && steps[0] == tables && steps[|migrations|] == Migrate(migrations, tables)
    ensures forall i | 0 <= i < |migrations| :: steps[i + 1] == migrations[i](steps[i])
    decreases |migrations|
  {
    steps := [tables];
    if migrations != [] {
      var n := |migrations| - 1;
      var before := MigrateSteps(migrations[..n], tables);
      steps := before + [migrations[n](before[n])];
    }
  }

  /** Nothing but the first `version` migrations has been applied, each once, in order. */
  ghost predicate AtVersion<T(!new)>(migrations: seq<T -> T>, initial: T, tables: T, version: nat) {
    version <= |migrations| && tables == Migrate(migrations[..version], initial)
  }

  /** Appending migrations to the list leaves every database at the version it has. */
  lemma AppendKeepsVersion<T(!new)>(migrations: seq<T -> T>, more: seq<T -> T>, initial: T, tables: T, version: nat)
    requires AtVersion(migrations, initial, tables, version)
    ensures AtVersion(migrations + more, initial, tables, version)
  {
    assert (migrations + more)[..version] == migrations[..version];
  }

  /** The next migration on top of the first `version` ones. */
  lemma NextVersion<T(!new)>(migrations: seq<T -> T>, initial: T, tables: T, version: nat)
    requires version < |migrations| && AtVersion(migrations, initial, tables, version)
    ensures AtVersion(migrations, initial, migrations[version](tables), version + 1)
  {
    assert migrations[..version + 1][..version] == migrations[..version];
  }

  class Store<T(!new)> {
    var tables: T
    var version: nat
    const faulty: bool

    constructor (tables: T, faulty: bool)
      ensures this.tables == tables && version == 0 && this.faulty == faulty
    {
      this.tables, version, this.faulty := tables, 0, faulty;
    }

    /** One migration and its version, both or neither. */
    method Apply(migration: T -> T, next: nat) returns (ok: bool)
      modifies this
      ensures ok ==> tables == migration(old(tables)) && version == next
      ensures !ok ==> tables == old(tables) && version == old(version)
      ensures !faulty ==> ok
    {
      var tables0, version0 := tables, version;
      ok := Reach(faulty);
      if !ok { return; }
      ok := Reach(faulty);
      if ok {
        tables := migration(tables);
        ok := Reach(faulty);
        if ok {
          version := next;
          ok := Reach(faulty);
        }
      }
      if !ok { tables, version := tables0, version0; }
    }

    /** `createSchema`. However often it fails and is run again, also with a longer list, no migration
        is skipped or applied twice. A database of a newer release is left alone. */
    method CreateSchema(migrations: seq<T -> T>, ghost initial: T) returns (ok: bool)
      requires version > |migrations| || AtVersion(migrations, initial, tables, version)
      modifies this
      ensures if old(version) > |migrations| then version == old(version) && tables == old(tables)
              else old(version) <= version && AtVersion(migrations, initial, tables, version)
      ensures ok && old(version) <= |migrations| ==> version == |migrations| && tables == Migrate(migrations, initial)
      ensures !faulty ==> ok
    {
      ok := Reach(faulty);
      if !ok { return; }
      var i := version;
      while i < |migrations|
        invariant i == version && ok
        invariant if old(version) > |migrations| then version == old(version) && tables == old(tables)
                  else old(version) <= version && AtVersion(migrations, initial, tables, version)
      {
        if old(version) <= |migrations| { NextVersion(migrations, initial, tables, i); }
        ok := Apply(migrations[i], i + 1);
        if !ok { return; }
        i := i + 1;
      }
      assert migrations[..|migrations|] == migrations;
    }
  }
}
