/**
 The parts of the engine's `sql` package that the database DDL nodes use:
 rows, schemas, session warnings, errors, the catalog of databases and the
 execution context. The catalog and the session are shared, long-lived
 objects that the nodes change in place, so they are classes; everything
 else is a value.
 */
module Sql {

  /** A value in a row. The DDL nodes never produce one. */
  datatype Value = Null | Int(i: int) | Text(s: string)

  /** A row is a sequence of values. */
  type Row = seq<Value>

  /** A column of a schema: its name, its type and the table it comes from. */
  datatype Column = Column(name: string, typeName: string, source: string)

  /** The ordered columns a node produces. */
  type Schema = seq<Column>

  /** A non-fatal diagnostic sent back to the issuing session. */
  datatype Warning = Warning(level: string, code: int, message: string)

  /** The error kinds the DDL nodes can return. */
  datatype Error =
    | ErrDatabaseExists(name: string)
    | ErrInvalidChildrenNumber(got: nat, expected: nat)

  /** A database handle as the in-memory backend creates it; only its name is modelled. */
  datatype Database = Database(name: string)

  /**
   The process-wide registry of databases, seen as the set of their names.
   It is a low-level registry: it enforces no policy about duplicates or
   absent names, which belongs to the calling node.
   */
  class Catalog {
    var names: set<string>

    /** Membership test. */
    method HasDB(name: string) returns (b: bool)
      ensures b <==> name in names
    {
      b := name in names;
    }

    /** Registers a database under its name; in this set model, adding a present name changes nothing. */
    method AddDatabase(db: Database)
      modifies this
      ensures names == old(names) + {db.name}
    {
      names := names + {db.name};
    }

    /** Removes a database by name; removing an absent name is a no-op. */
    method DropDatabase(name: string)
      modifies this
      ensures names == old(names) - {name}
      ensures name !in old(names) ==> names == old(names)
    {
      names := names - {name};
    }
  }

  /** A client session; only the warnings it has accumulated are modelled. */
  class Session {
    var warnings: seq<Warning>

    /** Appends one warning to the session's log. */
    method Warn(w: Warning)
      modifies this
      ensures warnings == old(warnings) + [w]
    {
      warnings := warnings + [w];
    }
  }

  /** The per-statement execution context; only its session is modelled. */
  datatype Context = Context(session: Session)
}
