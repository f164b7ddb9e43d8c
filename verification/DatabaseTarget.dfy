/** What a connection string must say to point at a given host, port and database. */
module DatabaseTarget {
  import opened PyText
  import PyNumber
  import opened Conninfo
  import opened Database

  // ---- Two spellings of one host

  predicate All(s: string, c: char) { forall i :: 0 <= i < |s| ==> s[i] == c }

  predicate NotAtEnds(s: string, c: char) { s == "" || (s[0] != c && s[|s| - 1] != c) }

  /** A host name between white space, with dots behind it. */
  ghost predicate HostSpelled(host: string, lead: string, name: string, dots: string, trail: string) {
    && AllSpace(lead) && AllSpace(trail) && All(dots, '.')
    && host == lead + ((name + dots) + trail) && Stripped(name + dots)
    && (name != "" ==> name[|name| - 1] != '.')
  }

  /** Case, white space around, and dots behind do not count. */
  ghost predicate HostForm(host: string, normal: string) {
    exists lead, name, dots, trail :: HostSpelled(host, lead, name, dots, trail) && Lower(name) == normal
  }

  lemma {:induction false} StripDotsSkips(name: string, dots: string)
    requires All(dots, '.') && (name != "" ==> name[|name| - 1] != '.')
    ensures StripDots(name + dots) == name
    decreases |dots|
  {
    if dots == "" {
      assert name + dots == name;
    } else {
      assert (name + dots)[..|name + dots| - 1] == name + dots[..|dots| - 1];
      StripDotsSkips(name, dots[..|dots| - 1]);
    }
  }

  lemma {:induction false} StripDotsLeaves(s: string) returns (dots: string)
    ensures All(dots, '.') && s == StripDots(s) + dots
    ensures StripDots(s) != "" ==> StripDots(s)[|StripDots(s)| - 1] != '.'
    decreases |s|
  {
    if s != "" && s[|s| - 1] == '.' {
      var more := StripDotsLeaves(s[..|s| - 1]);
      dots := more + ".";
    } else {
      dots := "";
    }
  }

  lemma LowerAppend(a: string, b: string)
    ensures Lower(a + b) == Lower(a) + Lower(b)
  {}

  lemma LowerDots(name: string, dots: string)
    requires All(dots, '.') && (name != "" ==> name[|name| - 1] != '.')
    ensures Lower(dots) == dots
    ensures Lower(name) != "" ==> Lower(name)[|Lower(name)| - 1] != '.'
  {
    assert forall i :: 0 <= i < |dots| ==> Lower(dots)[i] == dots[i];
  }

  lemma SpelledIsNormal(host: string, lead: string, name: string, dots: string, trail: string)
    requires HostSpelled(host, lead, name, dots, trail)
    ensures NormalHost(host) == Lower(name)
  {
    StripTakesSpace(lead, name + dots, trail);
    LowerAppend(name, dots);
    LowerDots(name, dots);
    StripDotsSkips(Lower(name), dots);
  }

  lemma NormalIsSpelled(host: string)
    ensures HostForm(host, NormalHost(host))
  {
    var lead, trail := StripLeaves(host);
    var text := Strip(host);
    var dots := StripDotsLeaves(Lower(text));
    var n := |NormalHost(host)|;
    var name, tail := text[..n], text[n..];
    assert text == name + tail;
    LowerAppend(name, tail);
    assert Lower(text)[..n] == Lower(name) && Lower(text)[n..] == Lower(tail);
    assert Lower(text)[..n] == NormalHost(host) && Lower(text)[n..] == dots;
    forall i | 0 <= i < |tail| ensures tail[i] == '.' {
      assert dots[i] == LowerChar(tail[i]);
    }
    assert HostSpelled(host, lead, name, tail, trail);
  }

  /** The host of an identity is the name in the given host: case, white space around, and dots behind are dropped. */
  lemma NormalHostMeaning(host: string, normal: string)
    ensures NormalHost(host) == normal <==> HostForm(host, normal)
  {
    NormalIsSpelled(host);
    if HostForm(host, normal) {
      var lead, name, dots, trail :| HostSpelled(host, lead, name, dots, trail) && Lower(name) == normal;
      SpelledIsNormal(host, lead, name, dots, trail);
    }
  }

  // ---- Keyword strings

  predicate Sets(it: Item, key: string) { Lower(it.key) == key }

  ghost predicate SetsLast(items: seq<Item>, key: string, value: string, i: int) {
    && 0 <= i < |items| && Sets(items[i], key) && items[i].value == value
    && forall j :: i < j < |items| ==> !Sets(items[j], key)
  }

  /** The last pair of the key gives this value. */
  ghost predicate Holds(items: seq<Item>, key: string, value: string) { exists i :: SetsLast(items, key, value, i) }

  ghost predicate Lacks(items: seq<Item>, key: string) {
    forall i :: 0 <= i < |items| ==> !Sets(items[i], key)
  }

  /** The host is that of "host"; where that is missing or empty that of "hostaddr"; and else it is empty. */
  ghost predicate HostIs(items: seq<Item>, host: string) {
    var noHost := Lacks(items, "host") || Holds(items, "host", "");
    || (host != "" && Holds(items, "host", host))
    || (noHost && Holds(items, "hostaddr", host))
    || (noHost && Lacks(items, "hostaddr") && host == "")
  }

  ghost predicate PortIs(items: seq<Item>, port: string) {
    Holds(items, "port", port) || (Lacks(items, "port") && port == "5432")
  }

  /** One host, one port, and a database with no nested settings. */
  ghost predicate Names(items: seq<Item>, host: string, port: string, database: string) {
    && HostIs(items, host) && ',' !in host && PortIs(items, port) && ',' !in port
    && Holds(items, "dbname", database) && database != "" && '=' !in database
  }

  lemma {:induction false} LastValueIs(items: seq<Item>, key: string)
    ensures forall v :: LastValue(items, key) == Some(v) <==> Holds(items, key, v)
    ensures LastValue(items, key).None? <==> Lacks(items, key)
    decreases |items|
  {
    if items != [] {
      var n := |items| - 1;
      LastValueIs(items[..n], key);
      forall v ensures LastValue(items, key) == Some(v) <==> Holds(items, key, v) {
        HoldsStep(items[..n], items[n], items, key, v);
      }
      assert forall i :: 0 <= i < n ==> items[..n][i] == items[i];
    }
  }

  lemma HoldsStep(before: seq<Item>, last: Item, items: seq<Item>, key: string, v: string)
    requires items == before + [last]
    ensures Holds(items, key, v) <==> if Sets(last, key) then last.value == v else Holds(before, key, v)
  {
    var n := |before|;
    assert items[n] == last && forall j :: 0 <= j < n ==> items[j] == before[j];
    if Holds(items, key, v) {
      var i :| SetsLast(items, key, v, i);
      if i < n {
        assert !Sets(items[n], key);
        assert SetsLast(before, key, v, i);
      }
    }
    if Sets(last, key) && last.value == v {
      assert SetsLast(items, key, v, n);
    }
    if !Sets(last, key) && Holds(before, key, v) {
      var i :| SetsLast(before, key, v, i);
      assert SetsLast(items, key, v, i);
    }
  }

  lemma GetIs(items: seq<Item>, key: string, default: string, v: string)
    ensures Database.Get(Meaning(items, map[]), key, default) == v <==>
            Holds(items, key, v) || (Lacks(items, key) && v == default)
  {
    MeaningIsLastValue(items, map[], key);
    LastValueIs(items, key);
  }

  lemma HostOf(items: seq<Item>, host: string)
    ensures var m := Meaning(items, map[]);
            OrElse(Database.Get(m, "host", ""), Database.Get(m, "hostaddr", "")) == host <==> HostIs(items, host)
  {
    GetIs(items, "host", "", host);
    GetIs(items, "host", "", "");
    GetIs(items, "hostaddr", "", host);
    LastValueIs(items, "host");
    LastValueIs(items, "hostaddr");
  }

  /** The identity a keyword string has: that of the host, port and database it names. */
  ghost predicate KeywordTarget(items: seq<Item>, host: string, port: string, id: Identity) {
    Names(items, host, port, id.database) && PyNumber.Int(port) == Some(id.port) && HostForm(host, id.host)
  }

  lemma KeywordsOf(items: seq<Item>, id: Identity)
    ensures IdentityOfKeywords(Meaning(items, map[])) == Some(id) <==>
            exists host, port :: KeywordTarget(items, host, port, id)
  {
    var m := Meaning(items, map[]);
    var host := OrElse(Database.Get(m, "host", ""), Database.Get(m, "hostaddr", ""));
    var port, database := Database.Get(m, "port", "5432"), Database.Get(m, "dbname", "");
    HostOf(items, host);
    GetIs(items, "port", "5432", port);
    GetIs(items, "dbname", "", database);
    NormalHostMeaning(host, id.host);
    if IdentityOfKeywords(m) == Some(id) {
      assert KeywordTarget(items, host, port, id);
    }
    if host', port' :| KeywordTarget(items, host', port', id) {
      HostOf(items, host');
      GetIs(items, "port", "5432", port');
      GetIs(items, "dbname", "", id.database);
    }
  }

  /** A written string has an identity exactly when it names one host, a number for a port, and a database. */
  lemma WrittenIdentityMeaning(items: seq<Item>, trail: string, lib: Library, id: Identity)
    requires WellWritten(items, trail) && IsKeywordString(Write(items, trail), lib)
    ensures DatabaseIdentity(Write(items, trail), lib) == Some(id) <==>
            exists host, port :: KeywordTarget(items, host, port, id)
  {
    WrittenPairsReadBack(items, trail, map[]);
    KeywordsOf(items, id);
    TargetKeysDecide(map[], map[]);
  }

  ghost predicate WrittenTarget(dsn: string, items: seq<Item>, trail: string, host: string, port: string,
                                id: Identity) {
    WellWritten(items, trail) && dsn == Write(items, trail) && KeywordTarget(items, host, port, id)
  }

  /** Any keyword string has an identity exactly when it is well-formed pairs that name a host, a port and a
      database. */
  lemma KeywordIdentityMeaning(dsn: string, lib: Library, id: Identity)
    requires IsKeywordString(dsn, lib)
    ensures DatabaseIdentity(dsn, lib) == Some(id) <==>
            exists items, trail, host, port :: WrittenTarget(dsn, items, trail, host, port, id)
  {
    if DatabaseIdentity(dsn, lib) == Some(id) {
      var items, trail := PairsAreWritten(dsn, map[]);
      WrittenIdentityMeaning(items, trail, lib, id);
      var host, port :| KeywordTarget(items, host, port, id);
      assert WrittenTarget(dsn, items, trail, host, port, id);
    }
    if items, trail, host, port :| WrittenTarget(dsn, items, trail, host, port, id) {
      WrittenIdentityMeaning(items, trail, lib, id);
    }
  }

  // ---- URIs

  predicate Defaulted(value: Option<string>, default: string, raw: string) {
    value == Some(raw) || (value.None? && raw == default)
  }

  /** The host of the URI; of its query where it has none; and else empty. */
  ghost predicate UriHostIs(uri: Uri, raw: string) {
    uri.hostname == Some(raw) || (uri.hostname.None? && Defaulted(uri.queryHost, "", raw))
  }

  ghost predicate UriPortIs(uri: Uri, number: int) {
    || uri.port == Port(number)
    || (uri.port == NoPort && exists raw :: Defaulted(uri.queryPort, "5432", raw) && PyNumber.Int(raw) == Some(number))
  }

  /** What is left of a path when the slashes around it are taken off. */
  ghost predicate PathSpelled(path: string, lead: string, name: string, trail: string) {
    path == lead + (name + trail) && All(lead, '/') && All(trail, '/') && NotAtEnds(name, '/')
  }

  /** The database is the path; where that is empty the one of the query. */
  ghost predicate UriDatabaseIs(uri: Uri, unquote: string -> string, database: string) {
    && database != ""
    && exists lead, name, trail :: PathSpelled(uri.path, lead, name, trail)
                                   && DatabaseFrom(uri, unquote, name, database)
  }

  ghost predicate DatabaseFrom(uri: Uri, unquote: string -> string, name: string, database: string) {
    || (unquote(name) != "" && unquote(name) == database)
    || (unquote(name) == "" && exists raw :: Defaulted(uri.queryDatabase, "", raw) && unquote(raw) == database)
  }

  /** The identity a URI has: that of the host, port and database it names. */
  ghost predicate UriTarget(uri: Uri, unquote: string -> string, raw: string, id: Identity) {
    && UriHostIs(uri, raw) && HostForm(unquote(raw), id.host) && UriPortIs(uri, id.port)
    && UriDatabaseIs(uri, unquote, id.database)
  }

  lemma {:induction false} TrimmedPath(path: string) returns (lead: string, trail: string)
    ensures PathSpelled(path, lead, TrimSlashes(path), trail)
    decreases |path|
  {
    if path != "" && path[0] == '/' {
      lead, trail := TrimmedPath(path[1..]);
      assert path == "/" + path[1..];
      lead := "/" + lead;
    } else if path != "" && path[|path| - 1] == '/' {
      lead, trail := TrimmedPath(path[..|path| - 1]);
      trail := trail + "/";
    } else {
      lead, trail := "", "";
    }
  }

  lemma {:induction false} TrimIs(path: string, lead: string, name: string, trail: string)
    requires PathSpelled(path, lead, name, trail)
    ensures TrimSlashes(path) == name
    decreases |path|
  {
    if lead != "" {
      assert path[1..] == lead[1..] + (name + trail);
      TrimIs(path[1..], lead[1..], name, trail);
    } else if name == "" && trail != "" {
      assert path[1..] == "" + ("" + trail[1..]);
      TrimIs(path[1..], "", "", trail[1..]);
    } else if trail != "" {
      assert path[0] == name[0] && path[|path| - 1] == '/';
      assert path[..|path| - 1] == lead + (name + trail[..|trail| - 1]);
      TrimIs(path[..|path| - 1], lead, name, trail[..|trail| - 1]);
    } else {
      assert path == name;
    }
  }

  lemma UriPortOf(uri: Uri, number: int)
    ensures UriPortIs(uri, number) <==>
            match uri.port
            case Port(n) => n == number
            case BadPort => false
            case NoPort => PyNumber.Int(Given(uri.queryPort, "5432")) == Some(number)
  {
    assert Defaulted(uri.queryPort, "5432", Given(uri.queryPort, "5432"));
  }

  lemma UriDatabaseOf(uri: Uri, unquote: string -> string, database: string)
    ensures UriDatabaseIs(uri, unquote, database) <==>
            database != "" && OrElse(unquote(TrimSlashes(uri.path)), unquote(Given(uri.queryDatabase, ""))) == database
  {
    var lead, trail := TrimmedPath(uri.path);
    var name := TrimSlashes(uri.path);
    assert Defaulted(uri.queryDatabase, "", Given(uri.queryDatabase, ""));
    if UriDatabaseIs(uri, unquote, database) {
      var lead', name', trail' :| PathSpelled(uri.path, lead', name', trail')
                                  && DatabaseFrom(uri, unquote, name', database);
      TrimIs(uri.path, lead', name', trail');
    } else if database != "" {
      assert !DatabaseFrom(uri, unquote, name, database);
    }
  }

  /** A URI has an identity exactly when it names a host, a port and a database. */
  lemma UriIdentityMeaning(dsn: string, uri: Uri, lib: Library, id: Identity)
    requires lib.split(dsn) == Some(uri) && Lower(uri.scheme) in {"postgres", "postgresql"}
    ensures DatabaseIdentity(dsn, lib) == Some(id) <==> exists raw :: UriTarget(uri, lib.unquote, raw, id)
  {
    assert UriHostIs(uri, UriHost(uri));
    NormalHostMeaning(lib.unquote(UriHost(uri)), id.host);
    UriPortOf(uri, id.port);
    UriDatabaseOf(uri, lib.unquote, id.database);
    if DatabaseIdentity(dsn, lib) == Some(id) {
      assert UriTarget(uri, lib.unquote, UriHost(uri), id);
    }
  }

  // ---- Across the two spellings

  ghost predicate BothName(uri: Uri, unquote: string -> string, dsn: string, id: Identity) {
    && (exists raw :: UriTarget(uri, unquote, raw, id))
    && exists items, trail, host, port :: WrittenTarget(dsn, items, trail, host, port, id)
  }

  /** A URI and a keyword string are for one database exactly when both name one host, port and database. */
  lemma UriIsKeywords(left: string, uri: Uri, right: string, lib: Library)
    requires lib.split(left) == Some(uri) && Lower(uri.scheme) in {"postgres", "postgresql"}
    requires IsKeywordString(right, lib)
    ensures SameDatabase(left, right, lib) <==> exists id :: BothName(uri, lib.unquote, right, id)
  {
    forall id ensures BothName(uri, lib.unquote, right, id) <==>
                      DatabaseIdentity(left, lib) == Some(id) && DatabaseIdentity(right, lib) == Some(id) {
      UriIdentityMeaning(left, uri, lib, id);
      KeywordIdentityMeaning(right, lib, id);
    }
    if SameDatabase(left, right, lib) {
      assert BothName(uri, lib.unquote, right, DatabaseIdentity(left, lib).value);
    }
  }

  /** Port 5432 is the one a string without a port means, in either spelling. */
  lemma DefaultPort(items: seq<Item>, host: string, database: string, uri: Uri)
    requires Lacks(items, "port") && HostIs(items, host) && ',' !in host
    requires Holds(items, "dbname", database) && database != "" && '=' !in database
    requires uri.port == NoPort && uri.queryPort == None
    ensures KeywordTarget(items, host, "5432", Identity(NormalHost(host), 5432, database))
    ensures UriPortIs(uri, 5432)
  {
    NormalHostMeaning(host, NormalHost(host));
    DefaultPortNumber();
    assert Defaulted(uri.queryPort, "5432", "5432");
  }

  lemma DefaultPortNumber()
    ensures PyNumber.Int("5432") == Some(5432)
  {
    PyNumber.IntStr(5432);
    assert PyNumber.Digits(5) == "5";
    assert PyNumber.Digits(54) == "54";
    assert PyNumber.Digits(543) == "543";
    assert PyNumber.Digits(5432) == "5432";
  }
}
