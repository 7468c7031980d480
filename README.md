# Database DDL plan nodes of go-mysql-server, in Dafny

This project models the two database-level DDL plan nodes of the engine's
`plan` package, `CreateDB` (`CREATE DATABASE [IF NOT EXISTS] name`) and
`DropDB` (`DROP DATABASE [IF EXISTS] name`), together with their shared base
`dbddlNode`, and proves what their execution does to the engine's catalog of
databases and to the session's warnings.

- `wrappers.dfy` (module `Wrappers`): `Option` for Go's `nil` and `Result` for
  Go's `(value, error)` pairs.
- `sql.dfy` (module `Sql`): the parts of the `sql` package the nodes use. The
  `Catalog` is a class over the set of live database names. Its
  `HasDB`, `AddDatabase` and `DropDatabase` carry the abstract contracts the
  nodes rely on: a membership test, an insertion, and a removal that is a
  no-op on an absent name. The `Session` is a class whose warning log
  `Warn` appends to. `Warning`, `Error`, `Row`, `Schema` and `Database`
  are values.
- `dbddl.dfy` (module `Plan`): the nodes. The two nodes have value
  receivers in Go, so they and their base are Dafny datatypes. `RowIter` is a method that changes
  the catalog and the session in place. It is proved against `Step`, a
  function from the state before (catalog names, session warnings) to the
  state after and the result. `Run` executes a script of statements one after
  another, and the lemmas about several statements follow from it. These
  cover idempotence, drop undoing create, create after drop, and distinct
  creates all succeeding.

Behaviour worth knowing, all modelled as written:

- `CreateDB`'s flag is named `IfExists`, but it means "if not exists". Its
  `String` still prints `" if exists"` when the flag is set.
- `DropDB.RowIter` never reads its flag, and it never fails; only `String`
  reads the flag. The catalog's removal is
  a no-op when the name is absent.
- The drop node's rendering uses the parser package's delete keyword, not a
  drop keyword. Both keywords are parameters of `String`.
- The catalog pointer is nil after both constructors. `RowIter` therefore
  requires a non-nil catalog, because the Go code would dereference nil.
- The rendering is ambiguous: `DescribeIsAmbiguous` shows a flagged node and
  an unflagged node that print the same text.

## Model

| member | source | states |
|---|---|---|
| `Sql.Catalog.HasDB` | sql/plan/dbddl.go:69 | the existence check answers true exactly when the name is in the catalog |
| `Sql.Catalog.AddDatabase` | sql/plan/dbddl.go:82-83 | registering a database adds its name and keeps every other name |
| `Sql.Catalog.DropDatabase` | sql/plan/dbddl.go:131 | removal deletes exactly that name and is a no-op when the name is absent |
| `Sql.Session.Warn` | sql/plan/dbddl.go:71-75 | a warning is appended to the session's log, which is otherwise unchanged |
| `Plan.ExistsWarning` | sql/plan/dbddl.go:71-75 | the tolerated-create warning has level "Note", code 1007, and the message "Can't create database ", then the name, then "; database exists " |
| `Plan.ExistsWarningNamesDatabase` | sql/plan/dbddl.go:71-75 | the "database exists" note has level "Note", code 1007, and a message that contains the database name |
| `Plan.Describe` | sql/plan/dbddl.go:52-58 | the rendering is the keyword followed by " database", then " if exists" when the flag is set, then a space and the name; its length adds up accordingly |
| `Plan.DescribeDeterminesName` | sql/plan/dbddl.go:52-58 | for a fixed keyword and flag, two renderings are equal only if the names are equal |
| `Plan.DescribeDeterminesFlag` | sql/plan/dbddl.go:114-120 | for a fixed keyword and name, two renderings are equal only if the flags are equal |
| `Plan.DescribeIsAmbiguous` | sql/plan/dbddl.go:114-120 | a flagged node named n prints like an unflagged node named "if exists " + n |
| `Plan.DbddlNode.Resolved` | sql/plan/dbddl.go:29-32 | the base node is always resolved |
| `Plan.DbddlNode.Schema` | sql/plan/dbddl.go:35 | the base node's schema is nil |
| `Plan.DbddlNode.Children` | sql/plan/dbddl.go:38 | the base node has no children |
| `Plan.CreateDB.Resolved` | sql/plan/dbddl.go:48-50 | a create node is resolved whatever its fields hold |
| `Plan.CreateDB.String` | sql/plan/dbddl.go:52-58 | the create keyword, " database", then " if exists" when the (if-not-exists) flag is set, then " " and the name |
| `Plan.CreateDB.Schema` | sql/plan/dbddl.go:60-62 | a create node's schema is nil |
| `Plan.CreateDB.Children` | sql/plan/dbddl.go:64-66 | a create node has no children |
| `Plan.CreateDB.WithChildren` | sql/plan/dbddl.go:88-90 | rebuilding succeeds exactly when no children are given, and it then returns the same node; otherwise it returns an arity error naming the count |
| `Plan.CreateDB.Step` | sql/plan/dbddl.go:68-86 | fails, with ErrDatabaseExists(name) and no change, exactly when the name exists and the flag is clear; otherwise it returns zero rows and the name is in the catalog; a present name leaves the catalog unchanged; exactly one note is appended when the name existed and the flag is set, and none otherwise |
| `Plan.CreateDB.RowIter` | sql/plan/dbddl.go:68-86 | the new catalog, warnings and result are what Step gives from the old ones. An absent name is added, with zero rows and no warning. A present name with the flag set leaves the catalog unchanged, appends exactly one note and returns zero rows. A present name with the flag clear returns ErrDatabaseExists(name) and changes nothing |
| `Plan.NewCreateDatabase` | sql/plan/dbddl.go:92-100 | the node carries the given name, flag, collation and charset, and a nil catalog |
| `Plan.DropDB.Resolved` | sql/plan/dbddl.go:110-112 | a drop node is resolved whatever its fields hold |
| `Plan.DropDB.String` | sql/plan/dbddl.go:114-120 | the delete keyword, " database", then " if exists" when the flag is set, then " " and the name |
| `Plan.DropDB.Schema` | sql/plan/dbddl.go:122-124 | a drop node's schema is nil |
| `Plan.DropDB.Children` | sql/plan/dbddl.go:126-128 | a drop node has no children |
| `Plan.DropDB.WithChildren` | sql/plan/dbddl.go:136-138 | rebuilding succeeds exactly when no children are given, and it then returns the same node; otherwise it returns an arity error naming the count |
| `Plan.DropDB.Step` | sql/plan/dbddl.go:130-134 | afterwards the name is absent and every other name is as before; no warning; zero rows and never an error, whatever the flag and whether or not the name was present |
| `Plan.DropDB.RowIter` | sql/plan/dbddl.go:130-134 | the new catalog and result are what Step gives; the catalog loses exactly the name, the session is untouched, and the result is zero rows |
| `Plan.NewDropDatabase` | sql/plan/dbddl.go:140-147 | the node carries the given name, flag, collation and charset, and a nil catalog |
| `Plan.WithOwnChildren` | sql/plan/dbddl.go:88-90 | rebuilding either node with its own children gives the node back |
| `Plan.CreateIfNotExistsIdempotent` | sql/plan/dbddl.go:69-85 | two tolerant creates of one name leave the catalog as one does, and both calls return zero rows without error |
| `Plan.DropUndoesCreate` | sql/plan/dbddl.go:130-134 | creating an absent name and then dropping it restores the catalog and the warnings, and both calls succeed |
| `Plan.DropIdempotent` | sql/plan/dbddl.go:130-134 | two drops of a name leave the same state as one |
| `Plan.CreateAfterDropSucceeds` | sql/plan/dbddl.go:130-134 | after a drop, a create of that name succeeds whatever its flag, adds the name and logs nothing |
| `Plan.DistinctCreatesAllSucceed` | sql/plan/dbddl.go:68-86 | creates of distinct names, none of them in the catalog, run in any order: all return zero rows, log nothing, and add exactly one new entry each |

## Left out

- The helper `NillaryWithChildren` is not part of this model; the source only calls it. `WithChildren` is assumed to return the node itself for zero children and an arity error otherwise. The error's payload, the count given and zero expected, is an assumption of this model, and the error's message text is not modelled.
- `memory.NewDatabase` and the real `sql.Catalog` are foreign. The catalog is an abstract set of names. Its name comparison (case-insensitive in the engine), its list of handles and its lack of duplicate checks are not modelled.
- Catalog locking and concurrent sessions are left out: neither is visible in this code. `DistinctCreatesAllSucceed` covers only the serial order of any interleaving.
- `sql.RowsToRowIter` and the pull protocol are left out. A successful statement's iterator is modelled as its empty sequence of rows.
- Only the warning log of the session is modelled. The transport behind `ctx.Session.Warn`, and the context's cancellation and deadline, are left out.
- The `Collate` and `Charset` fields are carried but never read.
- The text of the parser package's keyword constants is not modelled. Each `String` takes its keyword as a parameter.
- How the `Catalog` pointer gets set is not modelled. Both constructors leave it nil, and `RowIter` takes the catalog the node refers to as given.
- The row argument of `RowIter` is accepted and ignored, as in the source.
- `sql.Node` is open-ended in the engine. Here the node type only covers the two DDL nodes.
- A nil slice is not distinguished from an empty one for `Children`. A nil `Schema` is `None`.
