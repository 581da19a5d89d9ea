/** `db/db.py`: the ODBC connection string built from the five connection
    settings, and the conversion of one fetched row into a dictionary keyed by
    lower-cased column names. */
module Database {
  import opened Text

  /** One column of a fetched row: the name from `cursor_description` and the
      value as `str()` renders it. */
  datatype Column = Column(name: string, value: string)

  /** The dictionary `extract_row` builds: columns are visited in order and a later
      column overwrites an earlier one whose lower-cased name is the same. */
  function RowMap(row: seq<Column>): map<string, string>
  {
    if |row| == 0 then map[]
    else RowMap(row[..|row| - 1])[Lower(row[|row| - 1].name) := row[|row| - 1].value]
  }

  /** The keys are exactly the lower-cased column names. */
  lemma {:induction false} RowMapKeys(row: seq<Column>)
    ensures RowMap(row).Keys == set i | 0 <= i < |row| :: Lower(row[i].name)
  {
    if |row| > 0 {
      var init := row[..|row| - 1];
      RowMapKeys(init);
      assert forall i :: 0 <= i < |init| ==> init[i] == row[i];
      assert (set i | 0 <= i < |row| :: Lower(row[i].name))
             == (set i | 0 <= i < |init| :: Lower(init[i].name)) + {Lower(row[|row| - 1].name)};
    }
  }

  /** A column's value is the one stored under its lower-cased name unless a later
      column has the same lower-cased name. */
  lemma {:induction false} RowMapValue(row: seq<Column>, i: nat)
    requires i < |row|
    requires forall j :: i < j < |row| ==> Lower(row[j].name) != Lower(row[i].name)
    ensures Lower(row[i].name) in RowMap(row) && RowMap(row)[Lower(row[i].name)] == row[i].value
  {
    if i < |row| - 1 {
      var init := row[..|row| - 1];
      assert init[i] == row[i];
      RowMapValue(init, i);
    }
  }

  /** There are never more entries than columns. */
  lemma {:induction false} RowMapSize(row: seq<Column>)
    ensures |RowMap(row)| <= |row|
  {
    if |row| > 0 {
      RowMapSize(row[..|row| - 1]);
    }
  }

  /** Lower-cased names that are pairwise distinct give one entry per column. */
  lemma {:induction false} RowMapSizeDistinct(row: seq<Column>)
    requires forall i, j :: 0 <= i < j < |row| ==> Lower(row[i].name) != Lower(row[j].name)
    ensures |RowMap(row)| == |row|
  {
    if |row| > 0 {
      var init := row[..|row| - 1];
      var last := Lower(row[|row| - 1].name);
      RowMapSizeDistinct(init);
      RowMapKeys(init);
      forall i | 0 <= i < |init| ensures Lower(init[i].name) != last {
        assert init[i] == row[i];
      }
    }
  }

  const DriverSegment := "Driver={ODBC Driver 17 for SQL Server}"
  const PortSegment := "PORT=1433"

  /** `server`, followed by `\instance` only when an instance is configured. */
  function ServerName(server: string, instance: string): string
  {
    if instance != "" then server + "\\" + instance else server
  }

  /** The `key=value` segments of the connection string, in order. */
  function Segments(server: string, instance: string, database: string,
                    username: string, password: string): seq<string>
  {
    [DriverSegment, "SERVER=" + ServerName(server, instance), "DATABASE=" + database,
     "UID=" + username, "PWD=" + password, PortSegment]
  }

  /** Every segment followed by `c`. */
  function Terminated(parts: seq<string>, c: char): string
  {
    if |parts| == 0 then "" else parts[0] + [c] + Terminated(parts[1..], c)
  }

  lemma {:induction false} TerminatedJoin(parts: seq<string>, c: char)
    ensures Terminated(parts, c) == Join(parts + [""], c)
  {
    if |parts| > 0 {
      TerminatedJoin(parts[1..], c);
      assert (parts + [""])[1..] == parts[1..] + [""];
    }
  }

  lemma TerminatedSnoc(parts: seq<string>, x: string, c: char)
    ensures Terminated(parts + [x], c) == Terminated(parts, c) + x + [c]
  {
    TerminatedAppend(parts, [x], c);
    assert Terminated([x], c) == x + [c] + Terminated([], c);
  }

  /** `server` and `instance` appear in the `SERVER=` segment, the backslash only
      when there is an instance. */
  lemma ServerSegment(server: string, instance: string, database: string,
                      username: string, password: string)
    ensures var p := Segments(server, instance, database, username, password);
      p[1][..7] == "SERVER=" && p[1][7..7 + |server|] == server
      && (instance == "" <==> |p[1]| == 7 + |server|)
      && (instance != "" ==> p[1][7 + |server|..] == "\\" + instance)
  {
    var p := Segments(server, instance, database, username, password);
    if instance != "" {
      assert p[1] == "SERVER=" + server + ("\\" + instance);
    }
  }

  /** The connection string opens with the driver and closes with the port. */
  lemma ConnectionStringEnds(server: string, instance: string, database: string,
                             username: string, password: string)
    ensures var s := Terminated(Segments(server, instance, database, username, password), ';');
      && |s| > |DriverSegment| + |PortSegment| + 1
      && s[..|DriverSegment| + 1] == DriverSegment + ";"
      && s[|s| - |PortSegment| - 1..] == PortSegment + ";"
  {
    var p := Segments(server, instance, database, username, password);
    var s := Terminated(p, ';');
    assert p == [p[0]] + p[1..5] + [p[5]];
    TerminatedAppend([p[0]] + p[1..5], [p[5]], ';');
    TerminatedAppend([p[0]], p[1..5], ';');
    assert Terminated([p[0]], ';') == DriverSegment + ";";
    assert Terminated([p[5]], ';') == PortSegment + ";";
    var mid := Terminated(p[1..5], ';');
    assert s == (DriverSegment + ";") + mid + (PortSegment + ";");
  }

  lemma {:induction false} TerminatedAppend(a: seq<string>, b: seq<string>, c: char)
    ensures Terminated(a + b, c) == Terminated(a, c) + Terminated(b, c)
  {
    if |a| > 0 {
      assert (a + b)[1..] == a[1..] + b;
      TerminatedAppend(a[1..], b, c);
    } else {
      assert a + b == b;
    }
  }

  /** When no setting holds a `;`, splitting the connection string at `;` gives the
      segments back (and an empty tail after the final `;`): every setting can be
      read off its own `key=value` segment. */
  lemma ConnectionStringSplits(server: string, instance: string, database: string,
                               username: string, password: string)
    requires ';' !in server && ';' !in instance && ';' !in database
    requires ';' !in username && ';' !in password
    ensures var p := Segments(server, instance, database, username, password);
      Split(Terminated(p, ';'), ';') == p + [""]
  {
    var p := Segments(server, instance, database, username, password);
    TerminatedJoin(p, ';');
    forall i | 0 <= i < |p + [""]| ensures ';' !in (p + [""])[i] {
    }
    SplitJoin(p + [""], ';');
  }

  lemma Extend(p: seq<string>, k: nat, c: char)
    requires k < |p|
    ensures Terminated(p[..k + 1], c) == Terminated(p[..k], c) + p[k] + [c]
  {
    assert p[..k + 1] == p[..k] + [p[k]];
    TerminatedSnoc(p[..k], p[k], c);
  }

  /** `DB`: the connection settings, read once when the object is made. */
  class DB {
    const server: string
    const instance: string
    const database: string
    const username: string
    const password: string

    constructor (server: string, instance: string, database: string,
                 username: string, password: string)
      ensures this.server == server && this.instance == instance
      ensures this.database == database && this.username == username
      ensures this.password == password
    {
      this.server := server;
      this.instance := instance;
      this.database := database;
      this.username := username;
      this.password := password;
    }

    /** `_conn_str_`. */
    method ConnStr() returns (conStr: string)
      ensures conStr == Terminated(Segments(server, instance, database, username, password), ';')
    {
      ghost var p := Segments(server, instance, database, username, password);
      conStr := DriverSegment + ";";
      assert conStr == Terminated(p[..1], ';') by {
        TerminatedSnoc([], p[0], ';');
        assert p[..1] == [] + [p[0]];
      }
      ghost var before := conStr;
      conStr := conStr + ("SERVER=" + server);
      if instance != "" {
        conStr := conStr + ("\\" + instance);
      }
      assert conStr == before + ("SERVER=" + ServerName(server, instance));
      conStr := conStr + ";";
      Extend(p, 1, ';');
      assert conStr == Terminated(p[..2], ';');
      conStr := conStr + ("DATABASE=" + database + ";");
      Extend(p, 2, ';');
      assert conStr == Terminated(p[..3], ';');
      conStr := conStr + ("UID=" + username + ";");
      Extend(p, 3, ';');
      assert conStr == Terminated(p[..4], ';');
      conStr := conStr + ("PWD=" + password + ";");
      Extend(p, 4, ';');
      assert conStr == Terminated(p[..5], ';');
      conStr := conStr + (PortSegment + ";");
      Extend(p, 5, ';');
      assert p[..6] == p;
    }

    /** `extract_row`: lower-cased column names mapped to the values' strings. */
    static method ExtractRow(row: seq<Column>) returns (r: map<string, string>)
      ensures r == RowMap(row)
    {
      r := map[];
      var i := 0;
      while i < |row|
        invariant 0 <= i <= |row|
        invariant r == RowMap(row[..i])
      {
        var name := row[i].name;
        var val := row[i].value;
        name := Lower(name);
        assert row[..i + 1][..i] == row[..i];
        i := i + 1;
        r := r[name := val];
      }
      assert row[..|row|] == row;
    }
  }
}
