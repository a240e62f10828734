# Django Evolution: PostgreSQL statement builders and package version

This project models two pieces of Django Evolution, a schema-evolution tool for
Django models, and proves properties of them.

- **The PostgreSQL adapter** (`django_evolution/db/postgresql.py`). Seven builders
  each return the ordered list of SQL statements for one schema change:
  `rename_column` and `rename_table` take a table and the old and new names,
  `delete_column` and `add_column` a table and a field, `delete_table` a table,
  `create_index` a table, the model's tablespace and a field, and `add_table`
  the names, types and tablespaces of a many-to-many join table. Nothing is
  executed.
  - The database connection becomes an explicit `Postgresql.Connection` value. Its
    quoting function and its deferrable, tablespace and auto-increment clauses
    are uninterpreted. Its capability flags are a `Features` record.
  - A model field becomes a `Field` record: column, null flag, unique,
    primary key, tablespace, database type, and an optional relation (the related
    table and its primary-key name).
  - The single-statement builders (`RenameColumn`, `RenameTable`, `DeleteColumn`,
    `DeleteTable`, `AddColumn`) are functions. `CreateIndex` and `AddTable` build
    their output by appending, and `AddTable` has a loop over the auto-increment
    statements, so both are methods.
- **The SQL statements** (modules `Sql` and `TableSql`). The statements the adapter
  emits are given as abstract syntax: `Sql.Statement` for the six single-line
  statements, `TableSql.CreateTable` for the join table's multi-line
  `CREATE TABLE`. Each has a `Render` that gives the adapter's text and a `Parse`
  that reads that text back, by lines and then by space-separated words. The two
  are proved inverse in both directions. That lets each builder's result be
  stated as "this statement, which reads back as this operation on these quoted
  names".
- **The package version and the exception classes** (`django_evolution/__init__.py`).
  The version is the 6-tuple (major, minor, micro, stage, release number,
  released). `VersionString` and `PackageVersion` render it. Each has a strict
  parser that accepts exactly the texts the rendering produces, and lemmas in
  both directions show that each rendering loses only what it deliberately
  leaves out. The exception classes are given with their bases and method
  resolution order, and `str()` of an instance is found along that order: every
  `EvolutionException` subclass, `EvolutionNotImplementedError` included, shows
  `str(msg)`.
- **Support modules.** `Text` holds decimal rendering of naturals, `Span`, and
  Python's `split`/`join` on a separator, with their inverse laws. `Wrappers`
  holds `Option`.

## Model

| member | source | states |
|---|---|---|
| Postgresql.RenameColumn | django_evolution/db/postgresql.py:3-6 | the result is the one-element list holding the rendering of "rename quoted old column to quoted new column in the quoted table" |
| Postgresql.RenameColumnReadsBack | django_evolution/db/postgresql.py:3-6 | exactly one statement, and it parses back as the rename of `q(old)` to `q(new)` in `q(table)` |
| Postgresql.RenameTable | django_evolution/db/postgresql.py:8-11 | the result is the one-element list holding the rendering of "rename quoted old table to quoted new table" |
| Postgresql.RenameTableReadsBack | django_evolution/db/postgresql.py:8-11 | exactly one statement, and it parses back as the rename of table `q(old)` to `q(new)` and nothing else |
| Postgresql.DeleteColumn | django_evolution/db/postgresql.py:13-18 | the result is the one-element list holding the rendering of dropping the field's quoted column (not its attribute name) |
| Postgresql.DeleteColumnReadsBack | django_evolution/db/postgresql.py:13-18 | exactly one statement; it parses back as the drop of `q(field.column)` from `q(table)` and ends in ` CASCADE;` |
| Postgresql.DeleteTable | django_evolution/db/postgresql.py:20-22 | the result is the one-element list holding `DROP TABLE q(table);` as syntax |
| Postgresql.DeleteTableReadsBack | django_evolution/db/postgresql.py:20-22 | exactly one statement, and it parses back as dropping `q(table)` |
| Postgresql.ConstraintsText | django_evolution/db/postgresql.py:89-91 | the space-joined constraint list is `NOT NULL` or `NULL`, followed by ` UNIQUE` exactly when the unique constraint applies |
| Postgresql.AddColumn | django_evolution/db/postgresql.py:78-103 | both branches (with and without a relation) render the one add-column statement built from the field |
| Postgresql.AddColumnReadsBack | django_evolution/db/postgresql.py:78-103 | one statement adding `q(column)` of the field's type to `q(table)`. It is NOT NULL iff the field is not nullable, and UNIQUE iff unique and (not a primary key or unique+pk allowed). It has a REFERENCES clause iff the field has a relation, naming `q(related table)`, `q(related pk)` and the deferrable clause |
| Postgresql.FirstSet | django_evolution/db/postgresql.py:33 | Python's `a or b` on texts: set iff either is set; the first when it is set |
| Postgresql.IndexTablespace | django_evolution/db/postgresql.py:113-117 | the index's tablespace clause is present iff (field tablespace or model tablespace) is set and tablespaces are supported; it is then a space and the non-inline tablespace SQL of the chosen tablespace |
| Postgresql.CreateIndex | django_evolution/db/postgresql.py:105-126 | no statement when the column is a primary key or unique and the backend auto-indexes those; otherwise exactly the rendering of the index statement |
| Postgresql.IndexReadsBack | django_evolution/db/postgresql.py:111-125 | the index statement parses back as an index named `q(table + "_" + column)` on `q(table)` (`q(column)`), UNIQUE iff the field is unique, with the chosen tablespace clause |
| Postgresql.InlineTablespace | django_evolution/db/postgresql.py:33-37 | the inline tablespace clause is present iff (field tablespace or model tablespace) is set and the backend both supports tablespaces and auto-indexes primary keys |
| Postgresql.AddTable | django_evolution/db/postgresql.py:24-76 | `1 + len(autoinc)` statements: first the rendering of the join table statement built from the arguments, then the auto-increment statements in their original order (none when the backend gives `None` or an empty list) |
| Postgresql.JoinTableReadsBack | django_evolution/db/postgresql.py:38-69 | the join table statement parses back as table `q(m2m table)` with primary key `q('id')` of the auto field type; a reference from `q(column)` to `q(model table)` (`q(model pk)`) and one from `q(reverse)` to `q(related table)` (`q(related pk)`), each with its type and the deferrable clause; the inline tablespace present iff a tablespace is set and the backend supports tablespaces and auto-indexes primary keys; the tablespace line present iff the model tablespace is set and tablespaces are supported, and then the model's tablespace SQL |
| Sql.ParseRender | django_evolution/db/postgresql.py:6-22 | every well-formed statement the single-statement builders emit is read back from its text |
| Sql.RenderParse | django_evolution/db/postgresql.py:6-22 | any text that parses is exactly the rendering of the well-formed statement it parses to |
| Sql.RenderInjective | django_evolution/db/postgresql.py:6-22 | distinct well-formed statements have distinct texts |
| TableSql.ParseRender | django_evolution/db/postgresql.py:38-69 | every well-formed join table statement is read back from its newline-joined lines: table, `id` and its type, inline tablespace, both references, and the tablespace line when present |
| TableSql.RenderParse | django_evolution/db/postgresql.py:38-69 | any text that parses as a join table statement is exactly the rendering of the well-formed statement it parses to; in particular its UNIQUE line names the two reference columns and repeats the inline tablespace |
| TableSql.RenderInjective | django_evolution/db/postgresql.py:38-69 | distinct well-formed join table statements have distinct texts |
| Text.SplitJoin | django_evolution/db/postgresql.py:69 | splitting a separator-joined list of separator-free parts gives back the parts |
| Text.JoinSplit | django_evolution/db/postgresql.py:92 | joining the pieces of a split gives back the text |
| Evolution.Info | django_evolution/__init__.py:44 | the version info and the released flag together give back the version |
| Evolution.InfoDropsOnlyReleased | django_evolution/__init__.py:44 | versions with the same version info and the same released flag are the same version: the info drops the flag and nothing else |
| Evolution.VersionString | django_evolution/__init__.py:10-25 | the version string starts with `major.minor` |
| Evolution.PackageVersion | django_evolution/__init__.py:28-37 | the package version starts with `major.minor` |
| Evolution.IsRelease | django_evolution/__init__.py:40-41 | a version is a release iff its version string does not end in ` (dev)` |
| Evolution.ReleaseNumberRoundTrip | django_evolution/__init__.py:11-14 | `major.minor` then `.micro` iff micro is not zero: the three numbers are read back, with micro 0 when absent |
| Evolution.ReleaseNumberBack | django_evolution/__init__.py:11-14 | whatever release number is read is exactly the rendering of the numbers read, so a `.micro` is present only when not zero and no number has a leading zero |
| Evolution.StageSuffixRoundTrip | django_evolution/__init__.py:16-20 | the stage and number are read back from the stage suffix; a final release shows no number |
| Evolution.StageSuffixBack | django_evolution/__init__.py:16-20 | whatever stage suffix is read is exactly the rendering of the stage and number read: nothing for `final`, only ` RC<n>` for `rc`, ` <stage> <n>` otherwise |
| Evolution.DevSuffixIff | django_evolution/__init__.py:22-23 | the version string ends in ` (dev)` iff the version is not a release |
| Evolution.VersionStringRoundTrip | django_evolution/__init__.py:10-25 | a well-formed version is read back from its version string, except a final release's number |
| Evolution.VersionStringBack | django_evolution/__init__.py:10-25 | whatever text is read as a version is exactly the version string of the well-formed version read |
| Evolution.VersionStringInjective | django_evolution/__init__.py:10-25 | well-formed versions with the same version string agree on everything shown |
| Evolution.PackageVersionRoundTrip | django_evolution/__init__.py:28-37 | the version info is read back from the package version, except a final release's number |
| Evolution.PackageVersionBack | django_evolution/__init__.py:28-37 | whatever text is read as a package version is exactly the package version of the info read: `.micro` only when not zero, the stage immediately followed by its number, nothing after a final release |
| Evolution.PackageVersionChars | django_evolution/__init__.py:34-35 | the package version holds only digits, dots and lower-case letters, so no `(dev)`, no space and no `RC` |
| Evolution.CurrentVersion | django_evolution/__init__.py:7-45 | for (0, 7, 0, alpha, 0, not released): `0.7 alpha 0 (dev)`, `0.7alpha0`, version info (0, 7, 0, alpha, 0), not a release |
| Evolution.Mro | django_evolution/__init__.py:48-65 | each class's resolution order starts with the class, lists every direct base after it, and ends with `BaseException` |
| Evolution.StrOwnerIn | django_evolution/__init__.py:48-65 | the class an instance takes `__str__` from is the first class in the resolution order that defines one: it exists iff some class there defines one, and no class defining one comes before it |
| Evolution.EvolutionClassesUseOwnStr | django_evolution/__init__.py:48-65 | `EvolutionException`, `CannotSimulate`, `SimulationFailure` and `EvolutionNotImplementedError` all take `__str__` from `EvolutionException`, not from a built-in base |
| Evolution.Str | django_evolution/__init__.py:52-53 | `str()` of an instance of any of the package's exception classes is `str(msg)` |

## Left out

- `is_multi_db` is left out. It imports a module that is not part of this model.
- Executing SQL, transactions and the live connection are left out. The
  connection's `quote_name`, `deferrable_sql`, `tablespace_sql` and `autoinc_sql`
  are uninterpreted parameters, and its feature flags are a record.
- `field.db_type()` and `get_attname_column()` are left out. The field record
  carries the column name and the database type directly.
- A field's `null` flag is the record field `nullable`, because `null` is a Dafny keyword.
- A tablespace that is `None` and one that is `''` are both the empty string. The
  source treats both as unset.
- `autoinc_sql` returning `None` and returning an empty list are both modelled.
  Neither adds a statement.
- Postgresql.RenameColumnReadsBack: holds for quoted names without a space.
- Postgresql.RenameTableReadsBack: holds for quoted names without a space.
- Postgresql.DeleteColumnReadsBack: holds for quoted names without a space.
- Postgresql.DeleteTableReadsBack: holds for a quoted name without a space.
- Postgresql.AddColumnReadsBack: holds for quoted names and a column type without
  a space. A type such as `double precision` still renders exactly as modelled,
  but its statement does not read back word by word.
- Postgresql.IndexReadsBack: holds for quoted names without a space and a
  tablespace clause that is empty or starts with a space.
- Postgresql.JoinTableReadsBack: holds for quoted names and types without a space
  or a newline, deferrable and tablespace clauses without a newline, and a
  deferrable clause that is empty or starts with a space.
- Version components are natural numbers. Negative numbers and non-integer
  components are not modelled.
- Evolution.VersionStringRoundTrip: it holds for versions whose stage is a non-empty
  word of lower-case letters. The renderings themselves are defined for any stage.
- Evolution.PackageVersionRoundTrip: it holds for versions whose stage is a
  non-empty word of lower-case letters.
- Evolution.Str: Python's `str` on the message is a parameter. The built-in
  `BaseException.__str__` is not modelled, so `Str` gives `None` for the
  built-in classes. Exception raising and `__init__` are not modelled.
- Evolution.Mro: the resolution order of each class is written out as a table,
  not computed by C3 linearization.
- The version functions take the version as a parameter. `VERSION` is the
  package's own value, used in Evolution.CurrentVersion.
- `django_evolution/compat/models.py` and `django_evolution/tests/base_test_case.py`
  are not part of this model. The first forwards to Django's app registry. The
  second is test plumbing over modules that are not shown.
