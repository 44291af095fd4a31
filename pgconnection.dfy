/** The PostgreSQL connection operation: it takes host, port, database,
    schema, table, user name and password, checks them in prepare, and in
    execute builds the connection URL it hands back as its output. */
module PgConnection {
  import opened Seqs
  import opened Wrappers
  import opened Text

  /** The operation's preparation state (sNOTPREPARED, sPREPARED,
      sPREPAREFAILED). */
  datatype PrepState = NotPrepared | Prepared | PrepareFailed

  /** The seven inputs of the operation expression, in order; the port
      is a quint32. */
  datatype Inputs = Inputs(host: string, port: nat, database: string, schema: string,
                           table: string, username: string, password: string)

  /** What prepare decides: a connection needs a host and a schema. */
  function PrepareOutcome(inputs: Inputs): (s: PrepState)
    ensures s == Prepared <==> inputs.host != "" && inputs.schema != ""
    ensures s != NotPrepared
  {
    if inputs.host == "" then PrepareFailed
    else if inputs.schema == "" then PrepareFailed
    else Prepared
  }

  /** ":" and the port, or nothing for port 0. */
  function PortPart(port: nat): (p: string)
    ensures port == 0 <==> p == ""
    ensures port != 0 ==> p == ":" + NatToString(port)
  {
    if port != 0 then ":" + NatToString(port) else ""
  }

  /** "/" and the name, or nothing for an empty name. */
  function PathPart(name: string): (p: string)
    ensures name == "" <==> p == ""
    ensures name != "" ==> p == "/" + name
  {
    if name != "" then "/" + name else ""
  }

  /** The "?username=…&password=…" suffix, present only when both are
      given, as intended: the two names as they are. */
  function CredentialsPart(username: string, password: string): (p: string)
    ensures p != "" <==> username != "" && password != ""
    ensures p != "" ==> p == "?username=" + username + "&password=" + password
  {
    if username != "" && password != "" then "?username=" + username + "&password=" + password
    else ""
  }

  /** The connection URL execute evidently means to build: scheme and
      host, the port, the database and the schema each when given, then
      "/database/schema" once more in all cases, the table when given and
      the credentials when both are given. */
  function ConnectionUrl(c: Inputs): string {
    "postgresql://" + c.host + PortPart(c.port) + PathPart(c.database) + PathPart(c.schema)
    + ("/" + c.database + "/" + c.schema) + PathPart(c.table)
    + CredentialsPart(c.username, c.password)
  }

  /** The repeated path as written: "/%1/%2" filled by two chained args,
      so a place marker inside the database name is filled by the
      schema. */
  function RepeatedPathAsWritten(database: string, schema: string): string {
    Arg(Arg("/%1/%2", database), schema)
  }

  /** The table part as written: "/%1" filled once. */
  function TablePartAsWritten(table: string): (p: string)
    ensures p == PathPart(table)
  {
    OnlyArg("/", table);
    assert "/%1" == "/" + "%1";
    if table != "" then Arg("/%1", table) else ""
  }

  /** The credentials as written: "?username=%1&password=%2" filled by
      two chained args. */
  function CredentialsAsWritten(username: string, password: string): string {
    if username != "" && password != "" then Arg(Arg("?username=%1&password=%2", username), password)
    else ""
  }

  /** The connection URL execute builds as written. */
  function ConnectionUrlAsWritten(c: Inputs): string {
    "postgresql://" + c.host + PortPart(c.port) + PathPart(c.database) + PathPart(c.schema)
    + RepeatedPathAsWritten(c.database, c.schema) + TablePartAsWritten(c.table)
    + CredentialsAsWritten(c.username, c.password)
  }

  /** Without a '%' in the database name the repeated path is the two
      names; the schema may hold anything. */
  lemma RepeatedPathPlain(database: string, schema: string)
    requires '%' !in database
    ensures RepeatedPathAsWritten(database, schema) == "/" + database + "/" + schema
  {
    assert "/%1/%2" == "/" + "%1" + "/" + "%2";
    ChainedArgs("/", "/", database, schema);
  }

  /** Without a '%' in the user name the credentials are the two names;
      the password may hold anything. */
  lemma CredentialsPlain(username: string, password: string)
    requires '%' !in username
    ensures CredentialsAsWritten(username, password) == CredentialsPart(username, password)
  {
    if username != "" && password != "" {
      assert "?username=%1&password=%2" == "?username=" + "%1" + "&password=" + "%2";
      ChainedArgs("?username=", "&password=", username, password);
    }
  }

  /** The URL as written is the intended one whenever neither the
      database nor the user name holds a '%'. */
  lemma UrlAsWrittenAgrees(c: Inputs)
    requires '%' !in c.database && '%' !in c.username
    ensures ConnectionUrlAsWritten(c) == ConnectionUrl(c)
  {
    RepeatedPathPlain(c.database, c.schema);
    CredentialsPlain(c.username, c.password);
  }

  /** Two texts with the same start and then different characters
      differ. */
  lemma DifferAfterSamePrefix(head: string, x: string, y: string)
    requires x != [] && y != [] && x[0] != y[0]
    ensures head + x != head + y
  {
    assert (head + x)[|head|] == x[0];
    assert (head + y)[|head|] == y[0];
  }

  /** As written, a database named "%1" gives the repeated path
      "/schema/%2": the second arg fills the marker the first inserted. */
  lemma RepeatedPathResubstitutes(database: string, schema: string)
    requires database == "%1" && schema != ""
    ensures RepeatedPathAsWritten(database, schema) == "/" + schema + "/" + "%2"
  {
    assert "/%1/%2" == "/" + "%1" + "/" + "%2";
    ChainedArgsRefill("/", "/", database, schema);
  }

  /** Database "%1" with a schema not starting with '%' (such as "s",
      which gives "/s/%2" where "/%1/s" is meant): the path written is not
      the one meant. */
  lemma RepeatedPathDiffers(database: string, schema: string)
    requires database == "%1" && schema != "" && schema[0] != '%'
    ensures RepeatedPathAsWritten(database, schema) != "/" + database + "/" + schema
  {
    var slash, two := "/", "%2";
    RepeatedPathResubstitutes(database, schema);
    SeqAssoc(slash + schema, slash, two);
    SeqAssoc(slash, schema, slash + two);
    SeqAssoc(slash + database, slash, schema);
    SeqAssoc(slash, database, slash + schema);
    DifferAfterSamePrefix(slash, schema + (slash + two), database + (slash + schema));
  }

  /** As written, user name "%1" gives the credentials
      "?username=password&password=%2". */
  lemma CredentialsResubstitute(username: string, password: string)
    requires username == "%1" && password != ""
    ensures CredentialsAsWritten(username, password) == "?username=" + password + "&password=" + "%2"
  {
    assert "?username=%1&password=%2" == "?username=" + "%1" + "&password=" + "%2";
    ChainedArgsRefill("?username=", "&password=", username, password);
  }

  lemma CredentialsShape(username: string, password: string)
    requires username != "" && password != ""
    ensures CredentialsPart(username, password) == "?username=" + (username + ("&password=" + password))
  {
  }

  /** User name "%1" with a password not starting with '%' (such as "p",
      which gives "?username=p&password=%2" where
      "?username=%1&password=p" is meant): the credentials written are not
      the ones meant. */
  lemma CredentialsDiffer(username: string, password: string)
    requires username == "%1" && password != "" && password[0] != '%'
    ensures CredentialsAsWritten(username, password) != CredentialsPart(username, password)
  {
    var head, mid, two := "?username=", "&password=", "%2";
    CredentialsResubstitute(username, password);
    SeqAssoc(head + password, mid, two);
    SeqAssoc(head, password, mid + two);
    CredentialsShape(username, password);
    DifferAfterSamePrefix(head, password + (mid + two), username + (mid + password));
  }

  /** With both a database and a schema the intended path names them
      twice. */
  lemma UrlRepeatsPath(c: Inputs)
    requires c.database != "" && c.schema != ""
    ensures var path := "/" + c.database + "/" + c.schema;
            ConnectionUrl(c) == "postgresql://" + c.host + PortPart(c.port) + path + path
                                + PathPart(c.table) + CredentialsPart(c.username, c.password)
  {
  }

  /** The intended credentials end the URL when both are given;
      otherwise, if no input holds a '?', the URL has no query part at
      all. */
  lemma UrlCredentials(c: Inputs)
    ensures c.username != "" && c.password != "" ==>
              EndsWith(ConnectionUrl(c), "?username=" + c.username + "&password=" + c.password)
    ensures (c.username == "" || c.password == "")
            && '?' !in c.host && '?' !in c.database && '?' !in c.schema && '?' !in c.table
            ==> '?' !in ConnectionUrl(c)
  {
    var head := "postgresql://" + c.host + PortPart(c.port) + PathPart(c.database) + PathPart(c.schema)
                + ("/" + c.database + "/" + c.schema) + PathPart(c.table);
    var tail := CredentialsPart(c.username, c.password);
    assert ConnectionUrl(c) == head + tail;
    assert (head + tail)[|head + tail| - |tail|..] == tail;
    if (c.username == "" || c.password == "")
       && '?' !in c.host && '?' !in c.database && '?' !in c.schema && '?' !in c.table {
      NoQuestionMark(c.port);
      assert head + tail == head;
    }
  }

  /** A decimal port holds no '?'. */
  lemma NoQuestionMark(port: nat)
    ensures '?' !in PortPart(port)
  {
    if port != 0 {
      var digits := NatToString(port);
      assert PortPart(port) == [':'] + digits;
      assert forall k :: 0 <= k < |digits| ==> digits[k] != '?';
    }
  }

  /** The successive appends of execute that build the URL, the repeated
      path and the credentials by chained args. */
  method BuildUrl(c: Inputs) returns (expression: string)
    ensures expression == ConnectionUrlAsWritten(c)
    ensures '%' !in c.database && '%' !in c.username ==> expression == ConnectionUrl(c)
  {
    expression := "postgresql://" + c.host;
    expression := Append(expression, c.port != 0, ":" + NatToString(c.port), PortPart(c.port));
    expression := Append(expression, c.database != "", "/" + c.database, PathPart(c.database));
    expression := Append(expression, c.schema != "", "/" + c.schema, PathPart(c.schema));
    expression := expression + Arg(Arg("/%1/%2", c.database), c.schema);
    expression := Append(expression, c.table != "", Arg("/%1", c.table), TablePartAsWritten(c.table));
    expression := Append(expression, c.username != "" && c.password != "",
                         Arg(Arg("?username=%1&password=%2", c.username), c.password),
                         CredentialsAsWritten(c.username, c.password));
    if '%' !in c.database && '%' !in c.username {
      UrlAsWrittenAgrees(c);
    }
  }

  /** One conditional `expression +=` of execute; `part` is what the
      expression gains, the text when the condition holds and nothing
      otherwise. */
  method Append(expression: string, condition: bool, text: string, ghost part: string)
      returns (next: string)
    requires part == if condition then text else ""
    ensures next == expression + part
  {
    next := expression;
    if condition {
      next := next + text;
    } else {
      AppendEmpty(expression);
    }
  }

  /** The connection operation. `output` is the "connectionstring" value
      execute sets in the execution context. */
  class PostgresqlConnection {
    const inputs: Inputs
    var host: string
    var port: nat
    var database: string
    var schema: string
    var table: string
    var username: string
    var password: string
    var prepState: PrepState
    var output: Option<string>

    /** The fields as one Inputs value. */
    function Fields(): Inputs
      reads this
    {
      Inputs(host, port, database, schema, table, username, password)
    }

    constructor(inputs: Inputs)
      ensures this.inputs == inputs && prepState == NotPrepared && output.None?
    {
      this.inputs := inputs;
      host, port, database, schema, table, username, password := "", 0, "", "", "", "", "";
      prepState := NotPrepared;
      output := None;
    }

    /** prepare: copies the inputs into the fields and fails on an empty
        host or schema. */
    method Prepare() returns (state: PrepState)
      modifies this
      ensures Fields() == inputs
      ensures state == PrepareOutcome(inputs)
      ensures prepState == old(prepState) && output == old(output)
    {
      host := inputs.host;
      port := inputs.port;
      database := inputs.database;
      schema := inputs.schema;
      table := inputs.table;
      username := inputs.username;
      password := inputs.password;
      if host == "" {
        return PrepareFailed;
      }
      if schema == "" {
        return PrepareFailed;
      }
      return Prepared;
    }

    /** execute: prepares a not yet prepared operation and stops when that
        fails; otherwise sets the output to the connection URL. An
        operation whose state is already set (even to failed) is not
        prepared again. */
    method Execute() returns (ok: bool)
      modifies this
      ensures old(prepState) == NotPrepared ==>
                Fields() == inputs && prepState == PrepareOutcome(inputs)
      ensures old(prepState) != NotPrepared ==>
                Fields() == old(Fields()) && prepState == old(prepState)
      ensures ok <==> old(prepState) != NotPrepared || PrepareOutcome(inputs) == Prepared
      ensures ok ==> output == Some(ConnectionUrlAsWritten(Fields()))
      ensures ok && '%' !in database && '%' !in username ==> output == Some(ConnectionUrl(Fields()))
      ensures !ok ==> output == old(output)
    {
      if prepState == NotPrepared {
        prepState := Prepare();
        if prepState != Prepared {
          return false;
        }
      }
      var expression := BuildUrl(Fields());
      output := Some(expression);
      return true;
    }
  }

  /** A first execute on inputs without a host or schema reports failure
      and sets no output. */
  method ExecuteRejects(inputs: Inputs) returns (ok: bool)
    requires inputs.host == "" || inputs.schema == ""
    ensures !ok
  {
    var op := new PostgresqlConnection(inputs);
    ok := op.Execute();
    assert op.output.None?;
  }
}
