/**
 The database-level DDL plan nodes, `CREATE DATABASE` and `DROP DATABASE`.
 Both are zero-child plan nodes that are resolved by construction and
 produce no rows; executing one changes the shared catalog of database
 names and, for a tolerated create of an existing name, the session's
 warnings.

 Each node is a value. Its `RowIter` method changes the catalog and the
 session in place and is proved against `Step`, a function from the state
 before (catalog names and session warnings) to the state after and the
 result. The lemmas at the end reason about several statements run one
 after another with `Run`.
 */
module Plan {
  import opened Wrappers
  import opened Sql

  /** What `RowIter` hands back: the rows of its iterator, or an error. */
  type ExecResult = Result<seq<Row>, Error>

  /** The part of the world a DDL statement acts on. */
  datatype State = State(names: set<string>, warnings: seq<Warning>)

  /** The state after one statement and what the statement returned. */
  datatype Outcome = Outcome(after: State, result: ExecResult)

  /** The state after a script and each statement's result, in order. */
  datatype Trace = Trace(after: State, results: seq<ExecResult>)

  /** The state held by a catalog and a session. */
  function Snapshot(catalog: Catalog, session: Session): State
    reads catalog, session
  {
    State(catalog.names, session.warnings)
  }

  /** The plan nodes of this model. */
  datatype Node = CreateNode(create: CreateDB) | DropNode(drop: DropDB)
  {
    /** Executes the node on a state. */
    function Step(st: State): Outcome
    {
      match this
      case CreateNode(c) => c.Step(st)
      case DropNode(d) => d.Step(st)
    }
  }

  /** The diagnostic code of the "database exists" note. */
  const DatabaseExistsCode := 1007

  /** The zero-row result of a successful DDL statement. */
  const NoRows: ExecResult := Success([])

  /** The note a tolerated `CREATE DATABASE` of an existing name emits. */
  function ExistsWarning(name: string): (w: Warning)
    ensures w.level == "Note" && w.code == DatabaseExistsCode
    ensures |w.message| == 22 + |name| + 18
    ensures w.message[..22] == "Can't create database "
    ensures w.message[22..22 + |name|] == name
    ensures w.message[22 + |name|..] == "; database exists "
  {
    Warning("Note", DatabaseExistsCode, "Can't create database " + name + "; database exists ")
  }

  /** `name` occurs in `text` starting at position `i`. */
  predicate OccursAt(text: string, name: string, i: int)
  {
    0 <= i <= |text| - |name| && text[i..i + |name|] == name
  }

  /** `name` occurs in `text` as a contiguous piece. */
  ghost predicate Mentions(text: string, name: string)
  {
    exists i :: OccursAt(text, name, i)
  }

  /** The note is a "Note" with code 1007 whose message names the database. */
  lemma ExistsWarningNamesDatabase(name: string)
    ensures ExistsWarning(name).level == "Note"
    ensures ExistsWarning(name).code == 1007
    ensures Mentions(ExistsWarning(name).message, name)
  {
    var m := ExistsWarning(name).message;
    var prefix := "Can't create database ";
    assert |prefix| == 22;
    assert m == prefix + name + "; database exists ";
    assert OccursAt(m, name, 22);
  }

  /**
   The rendering both nodes share: the keyword, the word "database", an
   optional " if exists" and the database name.
   */
  function Describe(keyword: string, ifExists: bool, name: string): (s: string)
    ensures |s| == |keyword| + |" database"| + (if ifExists then |" if exists"| else 0) + 1 + |name|
    ensures s[..|keyword| + |" database"|] == keyword + " database"
    ensures ifExists ==> s[|keyword| + |" database"|..|keyword| + |" database if exists"|] == " if exists"
    ensures s[|s| - |name|..] == name
    ensures s[|s| - |name| - 1] == ' '
  {
    keyword + " database" + (if ifExists then " if exists" else "") + " " + name
  }

  /** With the keyword and the flag fixed, the rendering determines the name. */
  lemma DescribeDeterminesName(keyword: string, ifExists: bool, n1: string, n2: string)
    requires Describe(keyword, ifExists, n1) == Describe(keyword, ifExists, n2)
    ensures n1 == n2
  {
  }

  /** With the keyword and the name fixed, the rendering determines the flag. */
  lemma DescribeDeterminesFlag(keyword: string, b1: bool, b2: bool, name: string)
    requires Describe(keyword, b1, name) == Describe(keyword, b2, name)
    ensures b1 == b2
  {
  }

  /**
   The rendering alone does not determine both: a flagged node and an
   unflagged one whose name starts with "if exists " print the same.
   */
  lemma DescribeIsAmbiguous(keyword: string, name: string)
    ensures Describe(keyword, true, name) == Describe(keyword, false, "if exists " + name)
  {
  }

  /** The base the create node embeds: a reference to the catalog. */
  datatype DbddlNode = DbddlNode(catalog: Catalog?)
  {
    /** A database DDL node needs no binding: it is always resolved. */
    function Resolved(): (r: bool)
      ensures r
    {
      true
    }

    /** It produces no rows, so its schema is nil. */
    function Schema(): (r: Option<Sql.Schema>)
      ensures r == None
    {
      None
    }

    /** It has no children. */
    function Children(): (r: seq<Node>)
      ensures r == []
    {
      []
    }
  }

  /**
   `CREATE DATABASE [IF NOT EXISTS] name`. The flag is called `ifExists`
   but means "if not exists": it tolerates an existing name. The collation
   and character set are carried and never read.
   */
  datatype CreateDB = CreateDB(base: DbddlNode, dbName: string, ifExists: bool, collate: string, charset: string)
  {
    /** Resolved whatever the fields hold, as its embedded base is. */
    function Resolved(): (r: bool)
      ensures r
    {
      base.Resolved()
    }

    /** The plan rendering, with the create keyword supplied by the parser package. */
    function String(createStr: string): (s: string)
      ensures ifExists ==> s == createStr + " database if exists " + dbName
      ensures !ifExists ==> s == createStr + " database " + dbName
    {
      Describe(createStr, ifExists, dbName)
    }

    /** No rows, so a nil schema. */
    function Schema(): (r: Option<Sql.Schema>)
      ensures r == None
    {
      None
    }

    /** No children. */
    function Children(): (r: seq<Node>)
      ensures r == []
    {
      []
    }

    /** A zero-child node: rebuilding with no children gives the node back, anything else is an arity error. */
    function WithChildren(children: seq<Node>): (r: Result<Node, Error>)
      ensures r.Success? <==> |children| == 0
      ensures r.Success? ==> r.value == CreateNode(this)
      ensures r.Failure? ==> r.error == ErrInvalidChildrenNumber(|children|, 0)
    {
      if |children| != 0 then Failure(ErrInvalidChildrenNumber(|children|, 0)) else Success(CreateNode(this))
    }

    /**
     Executing the node on a state: fails exactly when the name exists and
     the flag is clear, and then changes nothing; otherwise the name is in
     the catalog afterwards, no rows are produced, and a note is logged
     exactly when the name already existed.
     */
    function Step(st: State): (out: Outcome)
      ensures out.result.Failure? <==> dbName in st.names && !ifExists
      ensures out.result.Failure? ==> out.result.error == ErrDatabaseExists(dbName) && out.after == st
      ensures out.result.Success? ==> out.result == NoRows && out.after.names == st.names + {dbName}
      ensures dbName in st.names ==> out.after.names == st.names
      ensures out.after.warnings == st.warnings + (if dbName in st.names && ifExists then [ExistsWarning(dbName)] else [])
    {
      var present := dbName in st.names;
      if ifExists && present then
        Outcome(State(st.names, st.warnings + [ExistsWarning(dbName)]), NoRows)
      else if present then
        Outcome(st, Failure(ErrDatabaseExists(dbName)))
      else
        Outcome(State(st.names + {dbName}, st.warnings), NoRows)
    }

    /** Runs the statement against the catalog the node refers to. */
    method RowIter(ctx: Context, row: Row) returns (r: ExecResult)
      requires base.catalog != null
      modifies base.catalog, ctx.session
      ensures Outcome(Snapshot(base.catalog, ctx.session), r)
              == Step(State(old(base.catalog.names), old(ctx.session.warnings)))
      ensures dbName !in old(base.catalog.names) ==>
                r == NoRows && base.catalog.names == old(base.catalog.names) + {dbName}
                && ctx.session.warnings == old(ctx.session.warnings)
      ensures dbName in old(base.catalog.names) && ifExists ==>
                r == NoRows && base.catalog.names == old(base.catalog.names)
                && ctx.session.warnings == old(ctx.session.warnings) + [ExistsWarning(dbName)]
      ensures dbName in old(base.catalog.names) && !ifExists ==>
                r == Failure(ErrDatabaseExists(dbName)) && base.catalog.names == old(base.catalog.names)
                && ctx.session.warnings == old(ctx.session.warnings)
    {
      var present := base.catalog.HasDB(dbName);
      if ifExists && present {
        ctx.session.Warn(ExistsWarning(dbName));
        return NoRows;
      } else if present {
        return Failure(ErrDatabaseExists(dbName));
      }
      var db := Database(dbName);
      base.catalog.AddDatabase(db);
      return NoRows;
    }
  }

  /** A new create node; like the source's constructor it leaves the catalog nil. */
  function NewCreateDatabase(dbName: string, ifExists: bool, collate: string, charset: string): (c: CreateDB)
    ensures c.base.catalog == null
    ensures c.dbName == dbName && c.ifExists == ifExists
    ensures c.collate == collate && c.charset == charset
  {
    CreateDB(DbddlNode(null), dbName, ifExists, collate, charset)
  }

  /**
   `DROP DATABASE [IF EXISTS] name`. Only `String` reads the flag;
   `RowIter` ignores it and the drop always succeeds. The collation and character set are unused.
   */
  datatype DropDB = DropDB(catalog: Catalog?, dbName: string, ifExists: bool, collate: string, charset: string)
  {
    /** Resolved whatever the fields hold. */
    function Resolved(): (r: bool)
      ensures r
    {
      true
    }

    /** The plan rendering, with the keyword supplied by the parser package. */
    function String(deleteStr: string): (s: string)
      ensures ifExists ==> s == deleteStr + " database if exists " + dbName
      ensures !ifExists ==> s == deleteStr + " database " + dbName
    {
      Describe(deleteStr, ifExists, dbName)
    }

    /** No rows, so a nil schema. */
    function Schema(): (r: Option<Sql.Schema>)
      ensures r == None
    {
      None
    }

    /** No children. */
    function Children(): (r: seq<Node>)
      ensures r == []
    {
      []
    }

    /** A zero-child node: rebuilding with no children gives the node back, anything else is an arity error. */
    function WithChildren(children: seq<Node>): (r: Result<Node, Error>)
      ensures r.Success? <==> |children| == 0
      ensures r.Success? ==> r.value == DropNode(this)
      ensures r.Failure? ==> r.error == ErrInvalidChildrenNumber(|children|, 0)
    {
      if |children| != 0 then Failure(ErrInvalidChildrenNumber(|children|, 0)) else Success(DropNode(this))
    }

    /**
     Executing the node on a state: afterwards the name is absent, every
     other name is as before, no warning is logged and no rows are
     produced, whether or not the name was present and whatever the flag.
     */
    function Step(st: State): (out: Outcome)
      ensures out.result == NoRows
      ensures dbName !in out.after.names
      ensures forall n :: n != dbName ==> (n in out.after.names <==> n in st.names)
      ensures out.after.warnings == st.warnings
    {
      Outcome(State(st.names - {dbName}, st.warnings), NoRows)
    }

    /** Runs the statement against the catalog the node refers to. */
    method RowIter(ctx: Context, row: Row) returns (r: ExecResult)
      requires catalog != null
      modifies catalog
      ensures Outcome(Snapshot(catalog, ctx.session), r)
              == Step(State(old(catalog.names), old(ctx.session.warnings)))
      ensures r == NoRows
      ensures catalog.names == old(catalog.names) - {dbName}
    {
      catalog.DropDatabase(dbName);
      return NoRows;
    }
  }

  /** A new drop node; like the source's constructor it leaves the catalog nil. */
  function NewDropDatabase(dbName: string, ifExists: bool, collate: string, charset: string): (d: DropDB)
    ensures d.catalog == null
    ensures d.dbName == dbName && d.ifExists == ifExists
    ensures d.collate == collate && d.charset == charset
  {
    DropDB(null, dbName, ifExists, collate, charset)
  }

  /** Rebuilding a node with its own children gives the node back. */
  lemma WithOwnChildren(c: CreateDB, d: DropDB)
    ensures c.WithChildren(c.Children()) == Success(CreateNode(c))
    ensures d.WithChildren(d.Children()) == Success(DropNode(d))
  {
  }

  /** Runs a script of statements one after another, collecting every result. */
  function Run(st: State, script: seq<Node>): (t: Trace)
    ensures |t.results| == |script|
    decreases |script|
  {
    if script == [] then Trace(st, [])
    else
      var o := script[0].Step(st);
      var rest := Run(o.after, script[1..]);
      Trace(rest.after, [o.result] + rest.results)
  }

  /** A two-statement script runs its first statement, then its second on the state the first left. */
  lemma RunTwo(st: State, a: Node, b: Node)
    ensures Run(st, [a, b]).after == b.Step(a.Step(st).after).after
    ensures Run(st, [a, b]).results == [a.Step(st).result, b.Step(a.Step(st).after).result]
  {
    var o1 := a.Step(st);
    var o2 := b.Step(o1.after);
    assert [b][1..] == [];
    assert Run(o1.after, [b]) == Trace(o2.after, [o2.result]);
    assert [a, b][1..] == [b];
    assert Run(st, [a, b]) == Trace(o2.after, [o1.result] + [o2.result]);
  }

  /**
   Issuing a tolerant create twice leaves the catalog as issuing it once,
   and the second call succeeds.
   */
  lemma CreateIfNotExistsIdempotent(st: State, c: CreateDB)
    requires c.ifExists
    ensures Run(st, [CreateNode(c), CreateNode(c)]).after.names == Run(st, [CreateNode(c)]).after.names
    ensures Run(st, [CreateNode(c), CreateNode(c)]).results == [NoRows, NoRows]
  {
    RunTwo(st, CreateNode(c), CreateNode(c));
    assert [CreateNode(c)][1..] == [];
  }

  /** Dropping a name that a create has just added restores the catalog. */
  lemma DropUndoesCreate(st: State, c: CreateDB, d: DropDB)
    requires c.dbName == d.dbName && c.dbName !in st.names
    ensures Run(st, [CreateNode(c), DropNode(d)]).after == st
    ensures Run(st, [CreateNode(c), DropNode(d)]).results == [NoRows, NoRows]
  {
    RunTwo(st, CreateNode(c), DropNode(d));
    assert st.names + {c.dbName} - {c.dbName} == st.names;
  }

  /** Dropping twice is the same as dropping once. */
  lemma DropIdempotent(st: State, d: DropDB)
    ensures Run(st, [DropNode(d), DropNode(d)]).after == Run(st, [DropNode(d)]).after
  {
    RunTwo(st, DropNode(d), DropNode(d));
    assert [DropNode(d)][1..] == [];
  }

  /** After a drop of its name, a create succeeds whatever its flag. */
  lemma CreateAfterDropSucceeds(st: State, d: DropDB, c: CreateDB)
    requires d.dbName == c.dbName
    ensures Run(st, [DropNode(d), CreateNode(c)]).results == [NoRows, NoRows]
    ensures Run(st, [DropNode(d), CreateNode(c)]).after.names == st.names + {c.dbName}
    ensures Run(st, [DropNode(d), CreateNode(c)]).after.warnings == st.warnings
  {
    RunTwo(st, DropNode(d), CreateNode(c));
  }

  /** The create statements of a script, as plan nodes. */
  function Creates(cs: seq<CreateDB>): (script: seq<Node>)
    ensures |script| == |cs|
  {
    if cs == [] then [] else [CreateNode(cs[0])] + Creates(cs[1..])
  }

  /** The names a sequence of create statements names. */
  function CreatedNames(cs: seq<CreateDB>): set<string>
  {
    if cs == [] then {} else {cs[0].dbName} + CreatedNames(cs[1..])
  }

  /** No two create statements name the same database. */
  predicate DistinctNames(cs: seq<CreateDB>)
  {
    forall i, j :: 0 <= i < j < |cs| ==> cs[i].dbName != cs[j].dbName
  }

  /** A script of creates runs its first create, then the rest on the state it left. */
  lemma RunCreatesCons(st: State, cs: seq<CreateDB>)
    requires cs != []
    ensures Run(st, Creates(cs)).after == Run(cs[0].Step(st).after, Creates(cs[1..])).after
    ensures Run(st, Creates(cs)).results == [cs[0].Step(st).result] + Run(cs[0].Step(st).after, Creates(cs[1..])).results
  {
  }

  /** Dropping the first create keeps the names distinct, and the first name is not among the rest. */
  lemma DistinctNamesTail(cs: seq<CreateDB>)
    requires cs != [] && DistinctNames(cs)
    ensures DistinctNames(cs[1..])
    ensures cs[0].dbName !in CreatedNames(cs[1..])
  {
    var rest := cs[1..];
    forall i, j | 0 <= i < j < |rest| ensures rest[i].dbName != rest[j].dbName {
      assert rest[i] == cs[i + 1] && rest[j] == cs[j + 1];
    }
    CreatedNamesMembers(rest);
  }

  /**
   Creates of distinct names, none of them in the catalog, all succeed in
   any order, log nothing, and add exactly one new entry each.
   */
  lemma {:induction false} DistinctCreatesAllSucceed(st: State, cs: seq<CreateDB>)
    requires DistinctNames(cs)
    requires forall i :: 0 <= i < |cs| ==> cs[i].dbName !in st.names
    ensures forall k :: 0 <= k < |cs| ==> Run(st, Creates(cs)).results[k] == NoRows
    ensures Run(st, Creates(cs)).after.names == st.names + CreatedNames(cs)
    ensures |Run(st, Creates(cs)).after.names - st.names| == |cs|
    ensures Run(st, Creates(cs)).after.warnings == st.warnings
    decreases |cs|
  {
    if cs != [] {
      var c, rest := cs[0], cs[1..];
      var o := c.Step(st);
      assert o == Outcome(State(st.names + {c.dbName}, st.warnings), NoRows);
      DistinctNamesTail(cs);
      forall i | 0 <= i < |rest| ensures rest[i].dbName !in o.after.names {
        assert rest[i] == cs[i + 1];
      }
      DistinctCreatesAllSucceed(o.after, rest);
      RunCreatesCons(st, cs);
      var t := Run(o.after, Creates(rest));
      assert t.after.names - st.names == (t.after.names - o.after.names) + {c.dbName};
    }
  }

  /** A name is created by the statements exactly when one of them names it. */
  lemma {:induction false} CreatedNamesMembers(cs: seq<CreateDB>)
    ensures forall n :: n in CreatedNames(cs) <==> exists i :: 0 <= i < |cs| && cs[i].dbName == n
  {
    if cs != [] {
      CreatedNamesMembers(cs[1..]);
      forall n | n in CreatedNames(cs) ensures exists i :: 0 <= i < |cs| && cs[i].dbName == n {
        if n != cs[0].dbName {
          assert n in CreatedNames(cs[1..]);
          var i :| 0 <= i < |cs[1..]| && cs[1..][i].dbName == n;
          assert cs[i + 1].dbName == n;
        }
      }
      forall n | (exists i :: 0 <= i < |cs| && cs[i].dbName == n) ensures n in CreatedNames(cs) {
        var i :| 0 <= i < |cs| && cs[i].dbName == n;
        if i > 0 {
          assert cs[1..][i - 1].dbName == n;
        }
      }
    }
  }
}
