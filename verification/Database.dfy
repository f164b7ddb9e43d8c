/** Which database a connection string points at, whatever its spelling and its credentials. */
module Database {
  import opened PyText
  import PyNumber
  import opened Conninfo

  /** Host, port and database; the scheme is always "postgresql". */
  datatype Identity = Identity(host: string, port: int, database: string)

  function Get(keywords: Keywords, key: string, default: string): string {
    if key in keywords then keywords[key] else default
  }

  function OrElse(a: string, b: string): string { if a != "" then a else b }

  function StripDots(s: string): string {
    if s != "" && s[|s| - 1] == '.' then StripDots(s[..|s| - 1]) else s
  }

  function NormalHost(host: string): string { StripDots(Lower(Strip(host))) }

  function IdentityOfKeywords(keywords: Keywords): Option<Identity> {
    var database := Get(keywords, "dbname", "");
    var host := OrElse(Get(keywords, "host", ""), Get(keywords, "hostaddr", ""));
    var port := Get(keywords, "port", "5432");
    if database == "" || '=' in database || ',' in host || ',' in port then None
    else match PyNumber.Int(port)
         case None => None
         case Some(n) => Some(Identity(NormalHost(host), n, database))
  }

  function KeywordValueIdentity(dsn: string): Option<Identity> {
    match ParseKeywords(dsn) case None => None case Some(keywords) => IdentityOfKeywords(keywords)
  }

  datatype UriPort = NoPort | Port(number: int) | BadPort

  /** A split URI, and the first values of the query options that count; None where there is none. */
  datatype Uri = Uri(scheme: string, hostname: Option<string>, port: UriPort, path: string,
                     queryHost: Option<string>, queryPort: Option<string>, queryDatabase: Option<string>)

  /** The URI library: `split` takes a text apart, or raises (None); `unquote` decodes percent escapes. */
  datatype Library = Library(split: string -> Option<Uri>, unquote: string -> string)

  function TrimSlashes(s: string): string {
    if s != "" && s[0] == '/' then TrimSlashes(s[1..])
    else if s != "" && s[|s| - 1] == '/' then TrimSlashes(s[..|s| - 1])
    else s
  }

  function Given(value: Option<string>, default: string): string { if value.Some? then value.value else default }

  function UriHost(uri: Uri): string { Given(if uri.hostname.Some? then uri.hostname else uri.queryHost, "") }

  function UriIdentity(uri: Uri, unquote: string -> string): Option<Identity> {
    var host := NormalHost(unquote(UriHost(uri)));
    var port := match uri.port
                case Port(n) => Some(n)
                case BadPort => None
                case NoPort => PyNumber.Int(Given(uri.queryPort, "5432"));
    var database := OrElse(unquote(TrimSlashes(uri.path)), unquote(Given(uri.queryDatabase, "")));
    if port.None? || database == "" then None else Some(Identity(host, port.value, database))
  }

  predicate IsPostgresScheme(scheme: string) { Lower(scheme) == "postgres" || Lower(scheme) == "postgresql" }

  function DatabaseIdentity(dsn: string, lib: Library): Option<Identity> {
    match lib.split(dsn)
    case None => None
    case Some(uri) =>
      if !IsPostgresScheme(uri.scheme) then KeywordValueIdentity(dsn) else UriIdentity(uri, lib.unquote)
  }

  predicate SameDatabase(left: string, right: string, lib: Library) {
    left == right ||
    (DatabaseIdentity(left, lib).Some? && DatabaseIdentity(left, lib) == DatabaseIdentity(right, lib))
  }

  lemma SameDatabaseIsEquivalence(a: string, b: string, c: string, lib: Library)
    ensures SameDatabase(a, a, lib)
    ensures SameDatabase(a, b, lib) ==> SameDatabase(b, a, lib)
    ensures SameDatabase(a, b, lib) && SameDatabase(b, c, lib) ==> SameDatabase(a, c, lib)
  {}

  // ---- Keyword strings: only four keys matter, and only their last values

  const TARGET_KEYS := {"dbname", "host", "hostaddr", "port"}

  /** The last value written for a key. */
  function LastValue(items: seq<Item>, key: string): Option<string> {
    if items == [] then None
    else
      var last := items[|items| - 1];
      if Lower(last.key) == key then Some(last.value) else LastValue(items[..|items| - 1], key)
  }

  lemma {:induction false} MeaningIsLastValue(items: seq<Item>, known: Keywords, key: string)
    ensures var m := Meaning(items, known);
            (key in m <==> key in known || LastValue(items, key).Some?)
            && (key in m ==> m[key] == match LastValue(items, key) case Some(v) => v case None => known[key])
    decreases |items|
  {
    if items != [] {
      var known' := known[Lower(items[0].key) := items[0].value];
      MeaningIsLastValue(items[1..], known', key);
      LastValueHead(items, key);
    }
  }

  lemma {:induction false} LastValueHead(items: seq<Item>, key: string)
    requires items != []
    ensures LastValue(items, key) == if LastValue(items[1..], key).Some? then LastValue(items[1..], key)
                                     else if Lower(items[0].key) == key then Some(items[0].value) else None
    decreases |items|
  {
    var n := |items| - 1;
    if n > 0 {
      LastValueHead(items[..n], key);
      assert items[1..][..n - 1] == items[..n][1..];
      assert items[1..][n - 1] == items[n];
    } else {
      assert items[..n] == [] && items[1..] == [];
    }
  }

  /** A written string is of the keyword kind when the URI library sees no postgres scheme in it. */
  predicate IsKeywordString(dsn: string, lib: Library) {
    lib.split(dsn).Some? && !IsPostgresScheme(lib.split(dsn).value.scheme)
  }

  /** Re-quoting, re-spacing, or changing any other key, such as user and password, keeps the identity. */
  lemma SpellingDoesNotMatter(items: seq<Item>, trail: string, items': seq<Item>, trail': string, lib: Library)
    requires WellWritten(items, trail) && WellWritten(items', trail')
    requires IsKeywordString(Write(items, trail), lib) && IsKeywordString(Write(items', trail'), lib)
    requires forall key :: key in TARGET_KEYS ==> LastValue(items, key) == LastValue(items', key)
    ensures DatabaseIdentity(Write(items, trail), lib) == DatabaseIdentity(Write(items', trail'), lib)
  {
    WrittenPairsReadBack(items, trail, map[]);
    WrittenPairsReadBack(items', trail', map[]);
    forall key: string | key in TARGET_KEYS
      ensures forall d: string :: Get(Meaning(items, map[]), key, d) == Get(Meaning(items', map[]), key, d)
    {
      MeaningIsLastValue(items, map[], key);
      MeaningIsLastValue(items', map[], key);
    }
    TargetKeysDecide(Meaning(items, map[]), Meaning(items', map[]));
  }

  lemma TargetKeysDecide(k: Keywords, k': Keywords)
    requires forall key, d :: key in TARGET_KEYS ==> Get(k, key, d) == Get(k', key, d)
    ensures IdentityOfKeywords(k) == IdentityOfKeywords(k')
    ensures k == map[] ==> IdentityOfKeywords(k').None?
    ensures k' == map[] ==> IdentityOfKeywords(k).None?
  {
    assert {"dbname", "host", "hostaddr", "port"} == TARGET_KEYS;
    assert Get(k, "dbname", "") == Get(k', "dbname", "");
    assert Get(k, "host", "") == Get(k', "host", "");
    assert Get(k, "hostaddr", "") == Get(k', "hostaddr", "");
    assert Get(k, "port", "5432") == Get(k', "port", "5432");
  }

  // ---- Reordering

  ghost predicate DistinctKeys(items: seq<Item>) {
    forall i, j :: 0 <= i < j < |items| ==> Lower(items[i].key) != Lower(items[j].key)
  }

  ghost predicate Assigns(items: seq<Item>, key: string, value: string) {
    exists i :: 0 <= i < |items| && Lower(items[i].key) == key && items[i].value == value
  }

  lemma {:induction false} LastValueOfDistinct(items: seq<Item>, key: string, value: string)
    requires DistinctKeys(items)
    ensures LastValue(items, key) == Some(value) <==> Assigns(items, key, value)
    decreases |items|
  {
    if items != [] {
      var n := |items| - 1;
      LastValueOfDistinct(items[..n], key, value);
      if Assigns(items, key, value) {
        var i :| 0 <= i < |items| && Lower(items[i].key) == key && items[i].value == value;
        if i < n {
          assert items[..n][i] == items[i];
        }
      }
      if LastValue(items, key) == Some(value) && Lower(items[n].key) != key {
        var i :| 0 <= i < n && Lower(items[..n][i].key) == key && items[..n][i].value == value;
        assert items[i] == items[..n][i];
      }
    }
  }

  lemma SameLastValue(items: seq<Item>, items': seq<Item>, key: string)
    requires DistinctKeys(items) && DistinctKeys(items')
    requires forall v :: Assigns(items, key, v) <==> Assigns(items', key, v)
    ensures LastValue(items, key) == LastValue(items', key)
  {
    match LastValue(items, key) {
      case Some(v) =>
        LastValueOfDistinct(items, key, v);
        LastValueOfDistinct(items', key, v);
      case None =>
        if LastValue(items', key).Some? {
          LastValueOfDistinct(items, key, LastValue(items', key).value);
          LastValueOfDistinct(items', key, LastValue(items', key).value);
        }
    }
  }

  /** The order of distinct keys does not matter: only what is assigned to the keys that name the target does. */
  lemma OrderDoesNotMatter(items: seq<Item>, trail: string, items': seq<Item>, trail': string, lib: Library)
    requires WellWritten(items, trail) && WellWritten(items', trail')
    requires IsKeywordString(Write(items, trail), lib) && IsKeywordString(Write(items', trail'), lib)
    requires DistinctKeys(items) && DistinctKeys(items')
    requires forall key, v :: key in TARGET_KEYS ==> (Assigns(items, key, v) <==> Assigns(items', key, v))
    ensures DatabaseIdentity(Write(items, trail), lib) == DatabaseIdentity(Write(items', trail'), lib)
  {
    forall key | key in TARGET_KEYS ensures LastValue(items, key) == LastValue(items', key) {
      SameLastValue(items, items', key);
    }
    SpellingDoesNotMatter(items, trail, items', trail', lib);
  }

  // ---- The fingerprint

  const NUL: char := 0 as char

  predicate IsNul(c: char) { c == NUL }

  /** What the fingerprint is the hash of. */
  function Material(identity: Identity): string {
    "postgresql" + ([NUL] + (identity.host + ([NUL] + (PyNumber.Str(identity.port) + ([NUL] + identity.database)))))
  }

  function Fingerprint(dsn: string, lib: Library, sha256: string -> string): Option<string> {
    match DatabaseIdentity(dsn, lib)
    case None => None
    case Some(identity) => Some("sha256:" + sha256(Material(identity)))
  }

  predicate NulFree(s: string) { forall i :: 0 <= i < |s| ==> !IsNul(s[i]) }

  lemma CutAtNul(a: string, x: string, b: string, y: string)
    requires NulFree(a) && NulFree(b)
    requires a + ([NUL] + x) == b + ([NUL] + y)
    ensures a == b && x == y
  {
    WordLengthIs(a, [NUL] + x, IsNul);
    WordLengthIs(b, [NUL] + y, IsNul);
    var s, t := a + ([NUL] + x), b + ([NUL] + y);
    assert s[..|a|] == a && t[..|b|] == b;
    assert s[|a| + 1..] == x && t[|b| + 1..] == y;
  }

  lemma PortIsNulFree(n: int)
    ensures NulFree(PyNumber.Str(n))
  {
    var digits := PyNumber.Digits(if n < 0 then -n else n);
    forall i | 0 <= i < |digits| ensures !IsNul(digits[i]) {
      assert PyNumber.IsDigit(digits[i]);
    }
  }

  /** How many NULs a text holds. */
  function Nuls(s: string): nat {
    if s == "" then 0 else (if IsNul(s[0]) then 1 else 0) + Nuls(s[1..])
  }

  lemma {:induction false} NulFreeMeaning(s: string)
    ensures NulFree(s) <==> Nuls(s) == 0
  {
    if s != "" {
      NulFreeMeaning(s[1..]);
      assert s == [s[0]] + s[1..];
    }
  }

  lemma NulInFront(a: string, u: string, x: string)
    requires a != "" && a + u == [NUL] + x
    ensures Nuls(a) > 0
  {
    assert (a + u)[0] == a[0];
  }

  /** A text is cut from what follows it by the number of its NULs. */
  lemma {:induction false} CutAfterNuls(a: string, x: string, b: string, y: string)
    requires Nuls(a) == Nuls(b) && a + ([NUL] + x) == b + ([NUL] + y)
    ensures a == b && x == y
    decreases |a|
  {
    if a != "" && b != "" {
      SameTail(a, [NUL] + x, b, [NUL] + y);
      CutAfterNuls(a[1..], x, b[1..], y);
      assert a == [a[0]] + a[1..] && b == [b[0]] + b[1..];
    } else if a == "" && b == "" {
      CutAtNul(a, x, b, y);
    } else if a == "" {
      NulInFront(b, [NUL] + y, x);
    } else {
      NulInFront(a, [NUL] + x, y);
    }
  }

  lemma SameTail(a: string, u: string, b: string, v: string)
    requires a != "" && b != "" && a + u == b + v
    ensures a[0] == b[0] && a[1..] + u == b[1..] + v
  {
    assert (a + u)[0] == a[0] && (b + v)[0] == b[0];
    assert (a + u)[1..] == a[1..] + u && (b + v)[1..] == b[1..] + v;
  }

  /** Where the hosts hold equally many NULs, what is hashed tells every two databases apart. */
  lemma MaterialIsInjective(a: Identity, b: Identity)
    requires Nuls(a.host) == Nuls(b.host)
    ensures Material(a) == Material(b) <==> a == b
  {
    if Material(a) == Material(b) {
      var pa, pb := PyNumber.Str(a.port), PyNumber.Str(b.port);
      PortIsNulFree(a.port);
      PortIsNulFree(b.port);
      CutAtNul("postgresql", a.host + ([NUL] + (pa + ([NUL] + a.database))),
               "postgresql", b.host + ([NUL] + (pb + ([NUL] + b.database))));
      CutAfterNuls(a.host, pa + ([NUL] + a.database), b.host, pb + ([NUL] + b.database));
      CutAtNul(pa, a.database, pb, b.database);
      PyNumber.IntStr(a.port);
      PyNumber.IntStr(b.port);
    }
  }

  // ---- The NULs of a host, counted in what the string gives

  /** The host as the string gives it, before it is normalised. */
  function GivenHost(dsn: string, lib: Library): string {
    match lib.split(dsn)
    case None => ""
    case Some(uri) =>
      if !IsPostgresScheme(uri.scheme) then
        match ParseKeywords(dsn)
        case None => ""
        case Some(keywords) => OrElse(Get(keywords, "host", ""), Get(keywords, "hostaddr", ""))
      else lib.unquote(UriHost(uri))
  }

  lemma {:induction false} NulsAppend(a: string, b: string)
    ensures Nuls(a + b) == Nuls(a) + Nuls(b)
  {
    if a == "" {
      assert a + b == b;
    } else {
      NulsAppend(a[1..], b);
      assert (a + b)[1..] == a[1..] + b;
    }
  }

  lemma NulsBeforeLast(s: string)
    requires s != "" && !IsNul(s[|s| - 1])
    ensures Nuls(s[..|s| - 1]) == Nuls(s)
  {
    var init, last := s[..|s| - 1], [s[|s| - 1]];
    assert s == init + last;
    NulsAppend(init, last);
    assert last[1..] == "";
  }

  lemma {:induction false} NulsOfLStrip(s: string)
    ensures Nuls(LStrip(s)) == Nuls(s)
  {
    if s != "" && IsSpace(s[0]) { NulsOfLStrip(s[1..]); }
  }

  lemma {:induction false} NulsOfRStrip(s: string)
    ensures Nuls(RStrip(s)) == Nuls(s)
    decreases |s|
  {
    if s != "" && IsSpace(s[|s| - 1]) {
      NulsBeforeLast(s);
      NulsOfRStrip(s[..|s| - 1]);
    }
  }

  lemma {:induction false} NulsOfLower(s: string)
    ensures Nuls(Lower(s)) == Nuls(s)
  {
    if s != "" {
      NulsOfLower(s[1..]);
      assert Lower(s)[1..] == Lower(s[1..]);
    }
  }

  lemma {:induction false} NulsOfStripDots(s: string)
    ensures Nuls(StripDots(s)) == Nuls(s)
    decreases |s|
  {
    if s != "" && s[|s| - 1] == '.' {
      NulsBeforeLast(s);
      NulsOfStripDots(s[..|s| - 1]);
    }
  }

  /** Normalising a host takes no NUL from it. */
  lemma NulsOfHost(host: string)
    ensures Nuls(NormalHost(host)) == Nuls(host)
  {
    NulsOfLStrip(host);
    NulsOfRStrip(LStrip(host));
    NulsOfLower(Strip(host));
    NulsOfStripDots(Lower(Strip(host)));
  }

  lemma IdentityKeepsNuls(dsn: string, lib: Library)
    requires DatabaseIdentity(dsn, lib).Some?
    ensures Nuls(DatabaseIdentity(dsn, lib).value.host) == Nuls(GivenHost(dsn, lib))
  {
    NulsOfHost(GivenHost(dsn, lib));
  }

  // ---- What equal fingerprints mean

  lemma EqualFingerprints(left: string, right: string, lib: Library, sha256: string -> string)
    requires forall x, y :: sha256(x) == sha256(y) ==> x == y
    ensures Fingerprint(left, lib, sha256) == Fingerprint(right, lib, sha256) <==>
            var a, b := DatabaseIdentity(left, lib), DatabaseIdentity(right, lib);
            (a.None? && b.None?) || (a.Some? && b.Some? && Material(a.value) == Material(b.value))
  {
    var a, b := DatabaseIdentity(left, lib), DatabaseIdentity(right, lib);
    if a.Some? && b.Some? {
      var x, y := sha256(Material(a.value)), sha256(Material(b.value));
      if "sha256:" + x == "sha256:" + y {
        assert ("sha256:" + x)[7..] == x && ("sha256:" + y)[7..] == y;
      }
    }
  }

  /** Strings of one fingerprint name one database exactly when the hosts they give hold equally many NULs. */
  lemma SameFingerprintIffSameNuls(left: string, right: string, lib: Library, sha256: string -> string)
    requires forall x, y :: sha256(x) == sha256(y) ==> x == y
    requires DatabaseIdentity(left, lib).Some? && Fingerprint(left, lib, sha256) == Fingerprint(right, lib, sha256)
    ensures DatabaseIdentity(left, lib) == DatabaseIdentity(right, lib)
            <==> Nuls(GivenHost(left, lib)) == Nuls(GivenHost(right, lib))
  {
    EqualFingerprints(left, right, lib, sha256);
    IdentityKeepsNuls(left, lib);
    IdentityKeepsNuls(right, lib);
    var a, b := DatabaseIdentity(left, lib).value, DatabaseIdentity(right, lib).value;
    if Nuls(a.host) == Nuls(b.host) {
      MaterialIsInjective(a, b);
    }
  }

  /** So over hosts with equally many NULs, equal fingerprints are exactly equal identities, None included. */
  lemma FingerprintIdentifies(left: string, right: string, lib: Library, sha256: string -> string)
    requires forall x, y :: sha256(x) == sha256(y) ==> x == y
    requires Nuls(GivenHost(left, lib)) == Nuls(GivenHost(right, lib))
    ensures Fingerprint(left, lib, sha256) == Fingerprint(right, lib, sha256)
            <==> DatabaseIdentity(left, lib) == DatabaseIdentity(right, lib)
  {
    if Fingerprint(left, lib, sha256) == Fingerprint(right, lib, sha256) {
      EqualFingerprints(left, right, lib, sha256);
      if DatabaseIdentity(left, lib).Some? {
        SameFingerprintIffSameNuls(left, right, lib, sha256);
      }
    }
  }

  // ---- Strings without NUL

  ghost predicate AllNulFree(keywords: Keywords) { forall k :: k in keywords ==> NulFree(keywords[k]) }

  lemma {:induction false} QuotedNulFree(s: string)
    requires NulFree(s) && ReadQuoted(s).Some?
    ensures NulFree(ReadQuoted(s).value.value) && NulFree(ReadQuoted(s).value.rest)
  {
    if s[0] == '\\' && |s| > 1 {
      QuotedNulFree(s[2..]);
    } else if s[0] != '\'' {
      QuotedNulFree(s[1..]);
    }
  }

  lemma {:induction false} LStripNulFree(s: string)
    requires NulFree(s)
    ensures NulFree(LStrip(s))
  {
    if s != "" && IsSpace(s[0]) { LStripNulFree(s[1..]); }
  }

  lemma AssignedNulFree(s: string)
    requires NulFree(s) && ReadAssigned(s).Some?
    ensures NulFree(ReadAssigned(s).value.value) && NulFree(ReadAssigned(s).value.rest)
  {
    LStripNulFree(s);
    LStripNulFree(LStrip(s)[1..]);
    var t := LStrip(LStrip(s)[1..]);
    if t != "" && t[0] == '\'' {
      QuotedNulFree(t[1..]);
    }
  }

  lemma PairNulFree(s: string)
    requires NulFree(s) && ReadPair(s).Some?
    ensures NulFree(ReadPair(s).value.value) && NulFree(ReadPair(s).value.rest)
  {
    AssignedNulFree(s[WordLength(s, NotKeyChar)..]);
  }

  lemma {:induction false} PairsNulFree(s: string, known: Keywords)
    requires NulFree(s) && AllNulFree(known) && ReadPairs(s, known).Some?
    ensures AllNulFree(ReadPairs(s, known).value)
    decreases |s|
  {
    LStripNulFree(s);
    if LStrip(s) != "" {
      PairNulFree(LStrip(s));
      var p := ReadPair(LStrip(s)).value;
      PairsNulFree(p.rest, known[p.key := p.value]);
    }
  }

  /** The URI library makes a NUL only of a percent escape. */
  ghost predicate NulsNeedPercent(lib: Library) {
    && (forall s :: '%' !in s ==> lib.unquote(s) == s)
    && (forall s :: '%' !in s && NulFree(s) && lib.split(s).Some? ==>
          var uri := lib.split(s).value;
          && (uri.hostname.Some? ==> '%' !in uri.hostname.value && NulFree(uri.hostname.value))
          && (uri.queryHost.Some? ==> '%' !in uri.queryHost.value && NulFree(uri.queryHost.value)))
  }

  /** A string without NUL gives a host without NUL: a keyword string always, a URI when nothing in it is escaped. */
  lemma GivenHostNulFree(dsn: string, lib: Library)
    requires NulFree(dsn) && (IsKeywordString(dsn, lib) || ('%' !in dsn && NulsNeedPercent(lib)))
    ensures Nuls(GivenHost(dsn, lib)) == 0
  {
    NulFreeMeaning(GivenHost(dsn, lib));
    if IsKeywordString(dsn, lib) && ParseKeywords(dsn).Some? {
      PairsNulFree(dsn, map[]);
    }
  }

  /** What a caller can check before the call: strings without NUL, and without escapes where they are URIs. */
  lemma FingerprintIdentifiesPlainStrings(left: string, right: string, lib: Library, sha256: string -> string)
    requires forall x, y :: sha256(x) == sha256(y) ==> x == y
    requires NulFree(left) && (IsKeywordString(left, lib) || ('%' !in left && NulsNeedPercent(lib)))
    requires NulFree(right) && (IsKeywordString(right, lib) || ('%' !in right && NulsNeedPercent(lib)))
    ensures Fingerprint(left, lib, sha256) == Fingerprint(right, lib, sha256)
            <==> DatabaseIdentity(left, lib) == DatabaseIdentity(right, lib)
  {
    GivenHostNulFree(left, lib);
    GivenHostNulFree(right, lib);
    FingerprintIdentifies(left, right, lib, sha256);
  }

  // ---- Two strings of one fingerprint

  function BareItem(lead: string, key: string, value: string): Item { Item(lead, key, "", "", value, Bare) }

  function TargetItems(host: string, port: string, database: string): seq<Item> {
    [BareItem("", "host", host), BareItem(" ", "port", port), BareItem(" ", "dbname", database)]
  }

  function TargetString(host: string, port: string, database: string): string {
    "host=" + (host + (" port=" + (port + (" dbname=" + database))))
  }

  lemma WriteBare(lead: string, key: string, value: string, later: string)
    ensures WriteItem(BareItem(lead, key, value), later) == (lead + (key + "=")) + (value + later)
  {
    assert "" + (value + later) == value + later;
    assert "" + ("=" + (value + later)) == "=" + (value + later);
    assert key + ("=" + (value + later)) == (key + "=") + (value + later);
    assert lead + ((key + "=") + (value + later)) == (lead + (key + "=")) + (value + later);
  }

  lemma WriteFirst(it: Item, items: seq<Item>, trail: string)
    requires it.spelling.Bare? && forall i :: 0 <= i < |items| ==> items[i].spelling.Bare?
    ensures Write([it] + items, trail) == WriteItem(it, Write(items, trail))
  {
    assert ([it] + items)[1..] == items;
  }

  lemma TargetIsWritten(host: string, port: string, database: string)
    ensures Write(TargetItems(host, port, database), "") == TargetString(host, port, database)
  {
    var h, p, d := BareItem("", "host", host), BareItem(" ", "port", port), BareItem(" ", "dbname", database);
    assert TargetItems(host, port, database) == [h] + ([p] + ([d] + []));
    WriteFirst(h, [p] + ([d] + []), "");
    WriteFirst(p, [d] + [], "");
    WriteFirst(d, [], "");
    WriteBare(" ", "dbname", database, "");
    WriteBare(" ", "port", port, " dbname=" + database);
    WriteBare("", "host", host, " port=" + (port + (" dbname=" + database)));
    assert " " + ("dbname" + "=") == " dbname=" && " " + ("port" + "=") == " port=" && "" + ("host" + "=") == "host=";
    assert database + "" == database;
  }

  lemma TargetItemsWellWritten(host: string, port: string, database: string)
    requires Spells(Bare, host) && Spells(Bare, port) && Spells(Bare, database)
    ensures WellWritten(TargetItems(host, port, database), "")
  {}

  lemma MeaningFirst(it: Item, items: seq<Item>, known: Keywords)
    ensures Meaning([it] + items, known) == Meaning(items, known[Lower(it.key) := it.value])
  {
    assert ([it] + items)[1..] == items;
  }

  lemma TargetMeaning(host: string, port: string, database: string)
    ensures Meaning(TargetItems(host, port, database), map[]) ==
            map["host" := host, "port" := port, "dbname" := database]
  {
    var h, p, d := BareItem("", "host", host), BareItem(" ", "port", port), BareItem(" ", "dbname", database);
    assert TargetItems(host, port, database) == [h] + ([p] + ([d] + []));
    MeaningFirst(h, [p] + ([d] + []), map[]);
    MeaningFirst(p, [d] + [], map["host" := host]);
    MeaningFirst(d, [], map["host" := host, "port" := port]);
    assert Lower("host") == "host" && Lower("port") == "port" && Lower("dbname") == "dbname";
  }

  lemma TargetIdentity(host: string, port: string, n: nat, database: string, lib: Library)
    requires Spells(Bare, host) && Spells(Bare, port) && Spells(Bare, database)
    requires IsKeywordString(TargetString(host, port, database), lib)
    requires ',' !in host && ',' !in port && '=' !in database && PyNumber.Int(port) == Some(n)
    ensures DatabaseIdentity(TargetString(host, port, database), lib) == Some(Identity(NormalHost(host), n, database))
  {
    TargetIsWritten(host, port, database);
    TargetItemsWellWritten(host, port, database);
    WrittenPairsReadBack(TargetItems(host, port, database), "", map[]);
    TargetMeaning(host, port, database);
    TargetKeywords(host, port, n, database);
  }

  lemma TargetKeywords(host: string, port: string, n: nat, database: string)
    requires host != "" && database != "" && ',' !in host && ',' !in port && '=' !in database
             && PyNumber.Int(port) == Some(n)
    ensures IdentityOfKeywords(map["host" := host, "port" := port, "dbname" := database])
         == Some(Identity(NormalHost(host), n, database))
  {}

  lemma NormalHostsOfCollision()
    ensures NormalHost("h") == "h" && NormalHost(['h', NUL, '1']) == ['h', NUL, '1']
  {
    assert Lower("h") == "h";
    assert Lower(['h', NUL, '1']) == ['h', NUL, '1'];
  }

  lemma SmallNumbers()
    ensures PyNumber.Str(1) == "1" && PyNumber.Str(2) == "2"
    ensures PyNumber.Int("1") == Some(1) && PyNumber.Int("2") == Some(2)
  {
    PyNumber.IntStr(1);
    PyNumber.IntStr(2);
  }

  const HOST_WITH_NUL := ['h', NUL, '1']
  const DATABASE_WITH_NUL := ['2', NUL, 'd']

  lemma CollidingMaterial()
    ensures Material(Identity(HOST_WITH_NUL, 2, "d")) == Material(Identity("h", 1, DATABASE_WITH_NUL))
  {
    SmallNumbers();
    assert HOST_WITH_NUL + ([NUL] + ("2" + ([NUL] + "d"))) == "h" + ([NUL] + ("1" + ([NUL] + DATABASE_WITH_NUL)));
  }

  lemma LeftIdentity(lib: Library)
    requires IsKeywordString(TargetString(HOST_WITH_NUL, "2", "d"), lib)
    ensures DatabaseIdentity(TargetString(HOST_WITH_NUL, "2", "d"), lib) == Some(Identity(HOST_WITH_NUL, 2, "d"))
  {
    SmallNumbers();
    NormalHostsOfCollision();
    TargetIdentity(HOST_WITH_NUL, "2", 2, "d", lib);
  }

  lemma RightIdentity(lib: Library)
    requires IsKeywordString(TargetString("h", "1", DATABASE_WITH_NUL), lib)
    ensures DatabaseIdentity(TargetString("h", "1", DATABASE_WITH_NUL), lib) ==
            Some(Identity("h", 1, DATABASE_WITH_NUL))
  {
    SmallNumbers();
    NormalHostsOfCollision();
    TargetIdentity("h", "1", 1, DATABASE_WITH_NUL, lib);
  }

  lemma SameMaterialSameFingerprint(left: string, right: string, lib: Library, sha256: string -> string, a: Identity,
                                    b: Identity)
    requires DatabaseIdentity(left, lib) == Some(a) && DatabaseIdentity(right, lib) == Some(b)
    requires Material(a) == Material(b)
    ensures Fingerprint(left, lib, sha256) == Fingerprint(right, lib, sha256)
  {}

  /** With a NUL in a host, two connection strings for different databases have one fingerprint, whatever the hash. */
  lemma NulHostsCollide(lib: Library, sha256: string -> string) returns (left: string, right: string)
    requires IsKeywordString(TargetString(HOST_WITH_NUL, "2", "d"), lib)
    requires IsKeywordString(TargetString("h", "1", DATABASE_WITH_NUL), lib)
    ensures left == TargetString(HOST_WITH_NUL, "2", "d") && right == TargetString("h", "1", DATABASE_WITH_NUL)
    ensures DatabaseIdentity(left, lib).Some? && DatabaseIdentity(right, lib).Some?
    ensures DatabaseIdentity(left, lib) != DatabaseIdentity(right, lib)
    ensures Fingerprint(left, lib, sha256) == Fingerprint(right, lib, sha256)
  {
    left, right := TargetString(HOST_WITH_NUL, "2", "d"), TargetString("h", "1", DATABASE_WITH_NUL);
    var a, b := Identity(HOST_WITH_NUL, 2, "d"), Identity("h", 1, DATABASE_WITH_NUL);
    LeftIdentity(lib);
    RightIdentity(lib);
    CollidingMaterial();
    SameMaterialSameFingerprint(left, right, lib, sha256, a, b);
    assert a.port != b.port;
  }
}
