/** The PostgreSQL connection string `getDSN` assembles from six settings,
    and the libpq keyword/value grammar that reads it back (PostgreSQL
    documentation, section 34.1.1.1 "Keyword/Value Connection Strings", as
    implemented by the Go driver lib/pq): settings are separated by white
    space; a value is either a run of non-space characters or a single-quoted
    string; in both, a backslash makes the next character literal. */
module Dsn {
  import opened Wrappers

  datatype Setting = Setting(key: string, value: string)

  /** The six settings in the order `getDSN` writes them. */
  function Settings(host: string, port: string, user: string, password: string,
                    dbname: string, sslmode: string): (settings: seq<Setting>)
  {
    [Setting("host", host), Setting("port", port), Setting("user", user),
     Setting("password", password), Setting("dbname", dbname), Setting("sslmode", sslmode)]
  }

  function Keys(settings: seq<Setting>): (keys: seq<string>)
  {
    if settings == [] then [] else [settings[0].key] + Keys(settings[1..])
  }

  /** The value the driver ends up with for `key`: it keeps settings in a
      map, so a later setting of the same key replaces an earlier one. */
  function Lookup(settings: seq<Setting>, key: string): (v: Option<string>)
    ensures v.Some? <==> key in Keys(settings)
    ensures v.Some? ==> Setting(key, v.value) in settings
  {
    if settings == [] then None
    else
      match Lookup(settings[1..], key)
      case Some(later) => Some(later)
      case None => if settings[0].key == key then Some(settings[0].value) else None
  }

  /** A setting followed by no other setting of its key is the one kept. */
  lemma {:induction false} LookupLast(settings: seq<Setting>, i: nat)
    requires i < |settings|
    requires settings[i].key !in Keys(settings[i + 1..])
    ensures Lookup(settings, settings[i].key) == Some(settings[i].value)
  {
    if i > 0 {
      assert settings[1..][i - 1..] == settings[i..];
      assert settings[1..][i - 1 + 1..] == settings[i + 1..];
      LookupLast(settings[1..], i - 1);
    }
  }

  // ---------------------------------------------------------------------
  // Reading a connection string

  /** Go's `unicode.IsSpace`: the Unicode White_Space characters. */
  predicate IsSpace(c: char) {
    var n := c as int;
    || 0x09 <= n <= 0x0D || n == 0x20 || n == 0x85 || n == 0xA0 || n == 0x1680
    || 0x2000 <= n <= 0x200A || n == 0x2028 || n == 0x2029 || n == 0x202F || n == 0x205F || n == 0x3000
  }

  function SkipSpaces(s: string): (t: string)
    ensures |t| <= |s|
    ensures t == [] || !IsSpace(t[0])
  {
    if s != [] && IsSpace(s[0]) then SkipSpaces(s[1..]) else s
  }

  /** A token read from the front of a string, and what follows it. */
  datatype Scan = Scan(token: string, rest: string)

  /** A keyword: everything up to white space or `=`. */
  function ScanKey(s: string): (r: Scan)
    ensures |r.rest| <= |s|
  {
    if s == [] || IsSpace(s[0]) || s[0] == '=' then Scan([], s)
    else
      var r := ScanKey(s[1..]);
      Scan([s[0]] + r.token, r.rest)
  }

  /** An unquoted value: everything up to white space, backslash escaping
      the next character. Fails on a trailing backslash. */
  function ScanUnquoted(s: string): (r: Option<Scan>)
    ensures r.Some? ==> |r.value.rest| <= |s|
  {
    if s == [] || IsSpace(s[0]) then Some(Scan([], s))
    else if s[0] == '\\' then
      if |s| < 2 then None
      else
        match ScanUnquoted(s[2..])
        case None => None
        case Some(r) => Some(Scan([s[1]] + r.token, r.rest))
    else
      match ScanUnquoted(s[1..])
      case None => None
      case Some(r) => Some(Scan([s[0]] + r.token, r.rest))
  }

  /** A quoted value, read from just after its opening quote up to and
      including the closing one, backslash escaping the next character.
      Fails when the quote is never closed. */
  function ScanQuoted(s: string): (r: Option<Scan>)
    ensures r.Some? ==> |r.value.rest| < |s|
  {
    if s == [] then None
    else if s[0] == '\'' then Some(Scan([], s[1..]))
    else if s[0] == '\\' then
      if |s| < 2 then None
      else
        match ScanQuoted(s[2..])
        case None => None
        case Some(r) => Some(Scan([s[1]] + r.token, r.rest))
    else
      match ScanQuoted(s[1..])
      case None => None
      case Some(r) => Some(Scan([s[0]] + r.token, r.rest))
  }

  /** A value: quoted when it opens with a single quote, bare otherwise. */
  function ScanValue(v: string): (r: Option<Scan>)
    requires v != []
    ensures r.Some? ==> |r.value.rest| <= |v|
  {
    if v[0] == '\'' then ScanQuoted(v[1..]) else ScanUnquoted(v)
  }

  /** One setting read from the front of a string, and what follows it. */
  datatype Read = Read(setting: Setting, rest: string)

  /** Reads `key = value` from a string that starts at the keyword. White
      space is skipped on both sides of `=`, so when the value is empty the
      next token is taken for it; at the end of the string the value is
      empty. */
  function ReadSetting(t: string): (r: Option<Read>)
    requires t != []
    ensures r.Some? ==> |r.value.rest| < |t|
  {
    var key := ScanKey(t);
    var afterKey := SkipSpaces(key.rest);
    if afterKey == [] || afterKey[0] != '=' then None
    else
      var v := SkipSpaces(afterKey[1..]);
      if v == [] then Some(Read(Setting(key.token, []), []))
      else
        match ScanValue(v)
        case None => None
        case Some(sc) => Some(Read(Setting(key.token, sc.token), sc.rest))
  }

  /** The settings of a connection string, in order, or `None` when the
      driver rejects it. */
  function Parse(s: string): (r: Option<seq<Setting>>)
    decreases |s|
  {
    var t := SkipSpaces(s);
    if t == [] then Some([])
    else
      match ReadSetting(t)
      case None => None
      case Some(r) =>
        match Parse(r.rest)
        case None => None
        case Some(more) => Some([r.setting] + more)
  }

  /** A keyword the grammar reads back unchanged. */
  predicate IsKey(k: string) {
    k != [] && forall i :: 0 <= i < |k| ==> !IsSpace(k[i]) && k[i] != '='
  }

  lemma {:induction false} ScanKeyOf(key: string, rest: string)
    requires forall i :: 0 <= i < |key| ==> !IsSpace(key[i]) && key[i] != '='
    ensures ScanKey(key + "=" + rest) == Scan(key, "=" + rest)
  {
    if key != [] {
      assert (key + "=" + rest)[1..] == key[1..] + "=" + rest;
      ScanKeyOf(key[1..], rest);
      assert [key[0]] + key[1..] == key;
    }
  }

  /** Reading one `key=value` setting whose value scans to `value`. */
  lemma ReadKeyValue(key: string, v: string, value: string, rest: string)
    requires IsKey(key)
    requires v != [] && !IsSpace(v[0])
    requires ScanValue(v) == Some(Scan(value, rest))
    ensures ReadSetting(key + "=" + v) == Some(Read(Setting(key, value), rest))
  {
    ScanKeyOf(key, v);
    assert ("=" + v)[1..] == v;
  }

  /** `Parse` on a string that starts with a setting. */
  lemma ParseRead(s: string)
    requires s != [] && !IsSpace(s[0]) && ReadSetting(s).Some?
    ensures Parse(s) == (match Parse(ReadSetting(s).value.rest)
                         case None => None
                         case Some(more) => Some([ReadSetting(s).value.setting] + more))
  {
  }

  lemma ParseSetting(key: string, v: string, value: string, rest: string)
    requires IsKey(key)
    requires v != [] && !IsSpace(v[0])
    requires ScanValue(v) == Some(Scan(value, rest))
    ensures Parse(key + "=" + v) == (match Parse(rest) case None => None case Some(more) => Some([Setting(key, value)] + more))
  {
    var s := key + "=" + v;
    assert s[0] == key[0];
    ReadKeyValue(key, v, value, rest);
    ParseRead(s);
  }

  /** White space before a setting is skipped. */
  lemma ParseSkipsSpace(rest: string)
    ensures Parse(" " + rest) == Parse(rest)
  {
    assert (" " + rest)[1..] == rest;
  }

  // ---------------------------------------------------------------------
  // Writing a connection string

  /** A value written bare: the grammar reads it back unchanged when it is
      not empty, holds no white space or backslash, and does not open with
      a quote. */
  predicate IsPlain(v: string) {
    v != [] && v[0] != '\'' && forall i :: 0 <= i < |v| ==> !IsSpace(v[i]) && v[i] != '\\'
  }

  /** Backslash before every backslash and single quote. */
  function Escape(v: string): (e: string)
    ensures |e| >= |v|
  {
    if v == [] then []
    else if v[0] == '\\' || v[0] == '\'' then ['\\', v[0]] + Escape(v[1..])
    else [v[0]] + Escape(v[1..])
  }

  function Quote(v: string): (q: string) {
    "'" + Escape(v) + "'"
  }

  /** How values are written: all bare, all quoted, or bare exactly when
      they are plain. */
  datatype Style = Bare | Quoted | Auto

  predicate QuotesValue(st: Setting, style: Style) {
    style == Quoted || (style == Auto && !IsPlain(st.value))
  }

  /** One `key=value` setting, with the value quoted or bare. */
  function Field(st: Setting, style: Style): (field: string) {
    st.key + "=" + (if QuotesValue(st, style) then Quote(st.value) else st.value)
  }

  /** Settings written one after another, separated by single spaces. */
  function Render(settings: seq<Setting>, style: Style): (s: string) {
    if settings == [] then []
    else if |settings| == 1 then Field(settings[0], style)
    else Field(settings[0], style) + " " + Render(settings[1..], style)
  }

  /** A rest of the string that ends a bare value: nothing, or white space. */
  predicate EndsToken(rest: string) {
    rest == [] || IsSpace(rest[0])
  }

  lemma {:induction false} ScanPlain(v: string, rest: string)
    requires forall i :: 0 <= i < |v| ==> !IsSpace(v[i]) && v[i] != '\\'
    requires EndsToken(rest)
    ensures ScanUnquoted(v + rest) == Some(Scan(v, rest))
  {
    if v == [] {
      assert v + rest == rest;
    } else {
      assert (v + rest)[0] == v[0];
      assert (v + rest)[1..] == v[1..] + rest;
      ScanPlain(v[1..], rest);
      assert [v[0]] + v[1..] == v;
    }
  }

  /** The quoted scanner undoes `Escape` up to the closing quote, whatever follows. */
  lemma {:induction false} ScanEscaped(v: string, rest: string)
    ensures ScanQuoted(Escape(v) + "'" + rest) == Some(Scan(v, rest))
  {
    var s := Escape(v) + "'" + rest;
    if v == [] {
      assert s == "'" + rest;
      assert s[1..] == rest;
    } else if v[0] == '\\' || v[0] == '\'' {
      assert s == ['\\', v[0]] + (Escape(v[1..]) + "'" + rest);
      assert s[2..] == Escape(v[1..]) + "'" + rest;
      ScanEscaped(v[1..], rest);
      assert [v[0]] + v[1..] == v;
    } else {
      assert s == [v[0]] + (Escape(v[1..]) + "'" + rest);
      assert s[1..] == Escape(v[1..]) + "'" + rest;
      ScanEscaped(v[1..], rest);
      assert [v[0]] + v[1..] == v;
    }
  }

  /** Keys the grammar accepts and values the chosen writing reads back. */
  predicate Renderable(settings: seq<Setting>, style: Style) {
    forall i :: 0 <= i < |settings| ==> IsKey(settings[i].key) && (style != Bare || IsPlain(settings[i].value))
  }

  /** Reading back one field followed by `rest`. */
  lemma ParseField(st: Setting, style: Style, rest: string)
    requires IsKey(st.key) && (style != Bare || IsPlain(st.value))
    requires EndsToken(rest)
    ensures Parse(Field(st, style) + rest)
            == (match Parse(rest) case None => None case Some(more) => Some([st] + more))
  {
    if QuotesValue(st, style) {
      var v := Quote(st.value) + rest;
      assert v[1..] == Escape(st.value) + "'" + rest;
      ScanEscaped(st.value, rest);
      assert Field(st, style) + rest == st.key + "=" + v;
      ParseSetting(st.key, v, st.value, rest);
    } else {
      var v := st.value + rest;
      ScanPlain(st.value, rest);
      assert v[0] == st.value[0];
      assert Field(st, style) + rest == st.key + "=" + v;
      ParseSetting(st.key, v, st.value, rest);
    }
  }

  /** Whatever is rendered with readable keys and values parses back to the
      same settings, in the same order. */
  lemma {:induction false} ParseRender(settings: seq<Setting>, style: Style)
    requires Renderable(settings, style)
    ensures Parse(Render(settings, style)) == Some(settings)
  {
    if |settings| == 1 {
      ParseRenderOne(settings, style);
    } else if |settings| > 1 {
      ParseRender(settings[1..], style);
      ParseRenderCons(settings, style);
    }
  }

  lemma ParseRenderOne(settings: seq<Setting>, style: Style)
    requires |settings| == 1 && Renderable(settings, style)
    ensures Parse(Render(settings, style)) == Some(settings)
  {
    ParseField(settings[0], style, []);
    assert Field(settings[0], style) + [] == Field(settings[0], style);
    assert Parse([]) == Some([]);
    assert [settings[0]] + [] == settings;
  }

  lemma ParseRenderCons(settings: seq<Setting>, style: Style)
    requires |settings| > 1 && Renderable(settings, style)
    requires Parse(Render(settings[1..], style)) == Some(settings[1..])
    ensures Parse(Render(settings, style)) == Some(settings)
  {
    RenderCons(settings, style);
    ParseFieldThen(settings[0], style, Render(settings[1..], style));
    assert [settings[0]] + settings[1..] == settings;
  }

  // ---------------------------------------------------------------------
  // Writing a connection string: the repository's `getDSN`

  /** `getDSN`, over the six values it reads from the environment. The
      connection string lists the six settings, keys in the fixed order
      host, port, user, password, dbname, sslmode, each key followed by `=`
      and its value written bare, separated by single spaces. */
  function GetDsn(host: string, port: string, user: string, password: string,
                  dbname: string, sslmode: string): (dsn: string)
    ensures dsn == Render(Settings(host, port, user, password, dbname, sslmode), Bare)
  {
    RenderSettings(host, port, user, password, dbname, sslmode);
    FlatIsGrouped(host, port, user, password, dbname, sslmode);
    "host=" + host + " port=" + port + " user=" + user + " password=" + password
      + " dbname=" + dbname + " sslmode=" + sslmode
  }

  /** The rendering of the six settings, grouped from the right. */
  function Grouped(host: string, port: string, user: string, password: string,
                   dbname: string, sslmode: string): (dsn: string)
  {
    "host=" + host + " " + ("port=" + port + " " + ("user=" + user + " " + ("password=" + password
      + " " + ("dbname=" + dbname + " " + ("sslmode=" + sslmode)))))
  }

  lemma RenderSettings(host: string, port: string, user: string, password: string,
                       dbname: string, sslmode: string)
    ensures Render(Settings(host, port, user, password, dbname, sslmode), Bare)
            == Grouped(host, port, user, password, dbname, sslmode)
  {
    var st := Settings(host, port, user, password, dbname, sslmode);
    var r5 := "sslmode=" + sslmode;
    var r4 := "dbname=" + dbname + " " + r5;
    var r3 := "password=" + password + " " + r4;
    var r2 := "user=" + user + " " + r3;
    var r1 := "port=" + port + " " + r2;
    assert Render(st[5..], Bare) == r5;
    assert Render(st[4..], Bare) == r4 by { assert st[4..][1..] == st[5..]; }
    assert Render(st[3..], Bare) == r3 by { assert st[3..][1..] == st[4..]; }
    assert Render(st[2..], Bare) == r2 by { assert st[2..][1..] == st[3..]; }
    assert Render(st[1..], Bare) == r1 by { assert st[1..][1..] == st[2..]; }
  }

  /** `getDSN`'s flat concatenation is the grouped rendering. */
  lemma FlatIsGrouped(host: string, port: string, user: string, password: string,
                      dbname: string, sslmode: string)
    ensures "host=" + host + " port=" + port + " user=" + user + " password=" + password
              + " dbname=" + dbname + " sslmode=" + sslmode
            == Grouped(host, port, user, password, dbname, sslmode)
  {
    var a, b, c := "host=" + host, " port=" + port, " user=" + user;
    var d, e, f := " password=" + password, " dbname=" + dbname, " sslmode=" + sslmode;
    assert "host=" + host + " port=" + port + " user=" + user + " password=" + password
              + " dbname=" + dbname + " sslmode=" + sslmode == a + (b + (c + (d + (e + f))));
    var r5 := "sslmode=" + sslmode;
    var r4 := "dbname=" + dbname + " " + r5;
    var r3 := "password=" + password + " " + r4;
    var r2 := "user=" + user + " " + r3;
    var r1 := "port=" + port + " " + r2;
    assert " " + r5 == f;
    assert " " + r4 == e + (" " + r5);
    assert " " + r3 == d + (" " + r4);
    assert " " + r2 == c + (" " + r3);
    assert " " + r1 == b + (" " + r2);
    assert Grouped(host, port, user, password, dbname, sslmode) == a + (" " + r1);
  }

  lemma SettingsKeys(host: string, port: string, user: string, password: string,
                     dbname: string, sslmode: string)
    ensures Keys(Settings(host, port, user, password, dbname, sslmode))
            == ["host", "port", "user", "password", "dbname", "sslmode"]
    ensures var st := Settings(host, port, user, password, dbname, sslmode);
            && Keys(st[1..]) == ["port", "user", "password", "dbname", "sslmode"]
            && Keys(st[2..]) == ["user", "password", "dbname", "sslmode"]
            && Keys(st[3..]) == ["password", "dbname", "sslmode"]
            && Keys(st[4..]) == ["dbname", "sslmode"]
            && Keys(st[5..]) == ["sslmode"]
            && Keys(st[6..]) == []
  {
    var st := Settings(host, port, user, password, dbname, sslmode);
    assert Keys(st[5..]) == ["sslmode"];
    assert Keys(st[4..]) == ["dbname"] + Keys(st[5..]) by { assert st[4..][1..] == st[5..]; }
    assert Keys(st[3..]) == ["password"] + Keys(st[4..]) by { assert st[3..][1..] == st[4..]; }
    assert Keys(st[2..]) == ["user"] + Keys(st[3..]) by { assert st[2..][1..] == st[3..]; }
    assert Keys(st[1..]) == ["port"] + Keys(st[2..]) by { assert st[1..][1..] == st[2..]; }
  }

  /** Each of the six keys is kept with its own value: the keys are distinct. */
  lemma SettingsLookup(host: string, port: string, user: string, password: string,
                       dbname: string, sslmode: string)
    ensures var st := Settings(host, port, user, password, dbname, sslmode);
            && Lookup(st, "host") == Some(host) && Lookup(st, "port") == Some(port)
            && Lookup(st, "user") == Some(user) && Lookup(st, "password") == Some(password)
            && Lookup(st, "dbname") == Some(dbname) && Lookup(st, "sslmode") == Some(sslmode)
  {
    var st := Settings(host, port, user, password, dbname, sslmode);
    SettingsKeys(host, port, user, password, dbname, sslmode);
    assert "host" !in Keys(st[1..]) && "port" !in Keys(st[2..]) && "user" !in Keys(st[3..]);
    assert "password" !in Keys(st[4..]) && "dbname" !in Keys(st[5..]);
    LookupLast(st, 0);
    LookupLast(st, 1);
    LookupLast(st, 2);
    LookupLast(st, 3);
    LookupLast(st, 4);
    LookupLast(st, 5);
  }

  /** The six settings can be written style, or bare when every value is plain. */
  lemma SettingsRenderable(host: string, port: string, user: string, password: string,
                           dbname: string, sslmode: string, style: Style)
    requires style != Bare || (IsPlain(host) && IsPlain(port) && IsPlain(user)
                        && IsPlain(password) && IsPlain(dbname) && IsPlain(sslmode))
    ensures Renderable(Settings(host, port, user, password, dbname, sslmode), style)
  {
    assert IsKey("host") && IsKey("port") && IsKey("user");
    assert IsKey("password") && IsKey("dbname") && IsKey("sslmode");
  }

  /** With six bare-writable values the driver reads back exactly the six
      settings, keys in `getDSN`'s order. */
  lemma GetDsnReadsBack(host: string, port: string, user: string, password: string,
                        dbname: string, sslmode: string)
    requires IsPlain(host) && IsPlain(port) && IsPlain(user)
    requires IsPlain(password) && IsPlain(dbname) && IsPlain(sslmode)
    ensures Parse(GetDsn(host, port, user, password, dbname, sslmode))
            == Some(Settings(host, port, user, password, dbname, sslmode))
    ensures Keys(Parse(GetDsn(host, port, user, password, dbname, sslmode)).value)
            == ["host", "port", "user", "password", "dbname", "sslmode"]
    ensures var kept := Parse(GetDsn(host, port, user, password, dbname, sslmode)).value;
            && Lookup(kept, "host") == Some(host) && Lookup(kept, "port") == Some(port)
            && Lookup(kept, "user") == Some(user) && Lookup(kept, "password") == Some(password)
            && Lookup(kept, "dbname") == Some(dbname) && Lookup(kept, "sslmode") == Some(sslmode)
  {
    SettingsLookup(host, port, user, password, dbname, sslmode);
    SettingsKeys(host, port, user, password, dbname, sslmode);
    SettingsRenderable(host, port, user, password, dbname, sslmode, Bare);
    ParseRender(Settings(host, port, user, password, dbname, sslmode), Bare);
  }

  /** The connection string the repository's test expects. */
  lemma GetDsnTestCase()
    ensures GetDsn("testhost", "testport", "testuser", "testpassword", "testdb", "disable")
            == "host=testhost port=testport user=testuser password=testpassword dbname=testdb sslmode=disable"
  {
    TestCaseText();
  }

  /** The test's values concatenated the way `getDSN` concatenates them. */
  lemma TestCaseText()
    ensures "host=" + "testhost" + " port=" + "testport" + " user=" + "testuser" + " password=" + "testpassword"
              + " dbname=" + "testdb" + " sslmode=" + "disable"
            == "host=testhost port=testport user=testuser password=testpassword dbname=testdb sslmode=disable"
  {
    TestCasePrefix();
    assert "host=testhost port=testport user=testuser password=" + "testpassword" + " dbname="
        == "host=testhost port=testport user=testuser password=testpassword dbname=";
    assert "host=testhost port=testport user=testuser password=testpassword dbname=" + "testdb" + " sslmode="
        == "host=testhost port=testport user=testuser password=testpassword dbname=testdb sslmode=";
  }

  lemma TestCasePrefix()
    ensures "host=" + "testhost" + " port=" + "testport" + " user=" + "testuser" + " password="
            == "host=testhost port=testport user=testuser password="
  {
    assert "host=" + "testhost" + " port=" == "host=testhost port=";
    assert "host=testhost port=" + "testport" + " user=" == "host=testhost port=testport user=";
  }

  /** A keyword ends at white space. */
  lemma {:induction false} ScanKeyToSpace(key: string, rest: string)
    requires forall i :: 0 <= i < |key| ==> !IsSpace(key[i]) && key[i] != '='
    requires rest != [] && IsSpace(rest[0])
    ensures ScanKey(key + rest) == Scan(key, rest)
  {
    if key == [] {
      assert key + rest == rest;
    } else {
      assert (key + rest)[1..] == key[1..] + rest;
      ScanKeyToSpace(key[1..], rest);
      assert [key[0]] + key[1..] == key;
    }
  }

  lemma SkipNoSpace(s: string)
    requires s == [] || !IsSpace(s[0])
    ensures SkipSpaces(s) == s
  {
  }

  lemma SkipOneSpace(s: string)
    ensures SkipSpaces(" " + s) == SkipSpaces(s)
  {
    assert (" " + s)[1..] == s;
  }

  lemma ReadMissingEquals(key: string, next: string)
    requires IsKey(key)
    requires next != [] && !IsSpace(next[0]) && next[0] != '='
    ensures ReadSetting(key + (" " + next)) == None
  {
    ScanKeyToSpace(key, " " + next);
    SkipOneSpace(next);
    SkipNoSpace(next);
  }

  lemma ParseUnreadable(s: string)
    requires s != [] && !IsSpace(s[0]) && ReadSetting(s).None?
    ensures Parse(s) == None
  {
  }

  /** A keyword followed by white space and then anything but `=` is rejected. */
  lemma ParseMissingEquals(key: string, next: string)
    requires IsKey(key)
    requires next != [] && !IsSpace(next[0]) && next[0] != '='
    ensures Parse(key + " " + next) == None
  {
    var s := key + (" " + next);
    assert s[0] == key[0];
    ReadMissingEquals(key, next);
    ParseUnreadable(s);
    assert key + " " + next == s;
  }

  lemma RenderCons(settings: seq<Setting>, style: Style)
    requires |settings| > 1
    ensures Render(settings, style) == Field(settings[0], style) + (" " + Render(settings[1..], style))
  {
  }

  /** A field, a space, and then `rest`. */
  lemma ParseFieldThen(st: Setting, style: Style, rest: string)
    requires IsKey(st.key) && (style != Bare || IsPlain(st.value))
    ensures Parse(Field(st, style) + (" " + rest))
            == (match Parse(rest) case None => None case Some(more) => Some([st] + more))
  {
    ParseField(st, style, " " + rest);
    ParseSkipsSpace(rest);
  }

  /** As written, a password with a space in it makes the connection
      string unreadable: "cret" is taken for a keyword lacking its `=`. */
  lemma SpaceInPasswordUnreadable()
    ensures Parse(GetDsn("db", "5432", "app", "se cret", "signer", "disable")) == None
  {
    var st := Settings("db", "5432", "app", "se cret", "signer", "disable");
    RenderCons(st[4..], Bare);
    assert st[4..][1..] == st[5..];
    assert Render(st[4..], Bare)[0] == 'd';
    PasswordFieldUnreadable(Render(st[4..], Bare));
    RenderCons(st[3..], Bare);
    assert st[3..][1..] == st[4..];
    assert IsKey("host") && IsKey("port") && IsKey("user");
    assert IsPlain("db") && IsPlain("5432") && IsPlain("app");
    RenderCons(st[2..], Bare);
    assert st[2..][1..] == st[3..];
    ParseFieldThen(st[2], Bare, Render(st[3..], Bare));
    RenderCons(st[1..], Bare);
    assert st[1..][1..] == st[2..];
    ParseFieldThen(st[1], Bare, Render(st[2..], Bare));
    RenderCons(st, Bare);
    ParseFieldThen(st[0], Bare, Render(st[1..], Bare));
  }

  /** "password=se cret" followed by further settings: the bare value
      stops at "se", and "cret" lacks its `=`. */
  lemma PasswordFieldUnreadable(tail: string)
    requires tail != [] && tail[0] == 'd'
    ensures Parse(Field(Setting("password", "se cret"), Bare) + (" " + tail)) == None
  {
    var after := " " + ("cret" + " " + tail);
    PasswordFieldSplits(tail);
    assert IsKey("password") && IsPlain("se") && IsKey("cret");
    ParseField(Setting("password", "se"), Bare, after);
    ParseSkipsSpace("cret" + " " + tail);
    ParseMissingEquals("cret", tail);
  }

  lemma PasswordFieldSplits(tail: string)
    ensures Field(Setting("password", "se cret"), Bare) + (" " + tail)
            == Field(Setting("password", "se"), Bare) + (" " + ("cret" + " " + tail))
  {
    assert "se cret" == "se" + " " + "cret";
  }

  /** As written, an empty value (an unset environment variable) makes the
      driver skip the space after `=` and take the next setting as the
      value: an empty host swallows the port setting. */
  lemma EmptyHostSwallowsPort(port: string, user: string, password: string, dbname: string, sslmode: string)
    requires IsPlain(port) && IsPlain(user) && IsPlain(password) && IsPlain(dbname) && IsPlain(sslmode)
    ensures var st := Settings("", port, user, password, dbname, sslmode);
            Parse(GetDsn("", port, user, password, dbname, sslmode))
            == Some([Setting("host", "port=" + port)] + st[2..])
    ensures var kept := Parse(GetDsn("", port, user, password, dbname, sslmode)).value;
            Lookup(kept, "host") == Some("port=" + port) && Lookup(kept, "port") == None
  {
    EmptyHostParse(port, user, password, dbname, sslmode);
    SwallowedLookup(port, user, password, dbname, sslmode);
  }

  lemma EmptyHostParse(port: string, user: string, password: string, dbname: string, sslmode: string)
    requires IsPlain(port) && IsPlain(user) && IsPlain(password) && IsPlain(dbname) && IsPlain(sslmode)
    ensures var st := Settings("", port, user, password, dbname, sslmode);
            Parse(GetDsn("", port, user, password, dbname, sslmode))
            == Some([Setting("host", "port=" + port)] + st[2..])
  {
    var st := Settings("", port, user, password, dbname, sslmode);
    var rest := Render(st[2..], Bare);
    EmptyHostLayout(port, user, password, dbname, sslmode);
    PlainAfterLiteral(port);
    assert IsKey("host");
    EmptyValueTakesNext("host", "port=" + port + (" " + rest), "port=" + port, " " + rest);
    ParseSkipsSpace(rest);
    SettingsRenderable("", port, user, password, dbname, sslmode, Quoted);
    assert Renderable(st[2..], Bare);
    ParseRender(st[2..], Bare);
  }

  /** With the port setting swallowed, the host holds the port text and the
      string sets no port, so the driver's default port applies instead of
      the one `getDSN` was given. */
  lemma SwallowedLookup(port: string, user: string, password: string, dbname: string, sslmode: string)
    ensures var kept := [Setting("host", "port=" + port)] + Settings("", port, user, password, dbname, sslmode)[2..];
            Lookup(kept, "host") == Some("port=" + port) && Lookup(kept, "port") == None
  {
    var st := Settings("", port, user, password, dbname, sslmode);
    var kept := [Setting("host", "port=" + port)] + st[2..];
    SettingsKeys("", port, user, password, dbname, sslmode);
    assert kept[1..] == st[2..];
    assert Keys(kept) == ["host", "user", "password", "dbname", "sslmode"];
    LookupLast(kept, 0);
  }

  lemma EmptyHostLayout(port: string, user: string, password: string, dbname: string, sslmode: string)
    ensures var st := Settings("", port, user, password, dbname, sslmode);
            Render(st, Bare) == "host" + "=" + (" " + ("port=" + port + (" " + Render(st[2..], Bare))))
  {
    var st := Settings("", port, user, password, dbname, sslmode);
    RenderCons(st, Bare);
    RenderCons(st[1..], Bare);
    assert st[1..][1..] == st[2..];
    assert Field(st[0], Bare) == "host" + "=";
    assert Field(st[1], Bare) == "port=" + port;
  }

  lemma PlainAfterLiteral(port: string)
    requires IsPlain(port)
    ensures IsPlain("port=" + port)
  {
    var v := "port=" + port;
    forall i | 0 <= i < |v| ensures !IsSpace(v[i]) && v[i] != '\\' {
      if i >= 5 { assert v[i] == port[i - 5]; }
    }
  }

  /** After `key=` and white space, the next token is read as the value. */
  lemma EmptyValueTakesNext(key: string, v: string, token: string, rest: string)
    requires IsKey(key)
    requires v == token + rest && IsPlain(token) && EndsToken(rest)
    ensures Parse(key + "=" + (" " + v))
            == (match Parse(rest) case None => None case Some(more) => Some([Setting(key, token)] + more))
  {
    var s := key + "=" + (" " + v);
    assert s[0] == key[0];
    ReadEmptyValue(key, v, token, rest);
    ParseRead(s);
  }

  lemma ReadEmptyValue(key: string, v: string, token: string, rest: string)
    requires IsKey(key)
    requires v == token + rest && IsPlain(token) && EndsToken(rest)
    ensures ReadSetting(key + "=" + (" " + v)) == Some(Read(Setting(key, token), rest))
  {
    var w := " " + v;
    ScanKeyOf(key, w);
    assert ("=" + w)[1..] == w;
    SkipOneSpace(v);
    assert v[0] == token[0];
    SkipNoSpace(v);
    ScanPlain(token, rest);
  }

  // ---------------------------------------------------------------------
  // The corrected connection string

  /** The corrected `getDSN`: the same six settings in the same order, a
      value written bare when it is plain and single-quoted with backslash
      escapes otherwise. The driver reads it back exactly for every choice
      of values, and where every value is plain it is `getDSN`'s string. */
  function GetDsnFixed(host: string, port: string, user: string, password: string,
                       dbname: string, sslmode: string): (dsn: string)
    ensures Parse(dsn) == Some(Settings(host, port, user, password, dbname, sslmode))
    ensures var kept := Parse(dsn).value;
            && Lookup(kept, "host") == Some(host) && Lookup(kept, "port") == Some(port)
            && Lookup(kept, "user") == Some(user) && Lookup(kept, "password") == Some(password)
            && Lookup(kept, "dbname") == Some(dbname) && Lookup(kept, "sslmode") == Some(sslmode)
    ensures IsPlain(host) && IsPlain(port) && IsPlain(user) && IsPlain(password)
            && IsPlain(dbname) && IsPlain(sslmode)
            ==> dsn == GetDsn(host, port, user, password, dbname, sslmode)
  {
    var st := Settings(host, port, user, password, dbname, sslmode);
    SettingsLookup(host, port, user, password, dbname, sslmode);
    SettingsRenderable(host, port, user, password, dbname, sslmode, Auto);
    ParseRender(st, Auto);
    AutoIsGetDsn(host, port, user, password, dbname, sslmode);
    Render(st, Auto)
  }

  lemma AutoIsGetDsn(host: string, port: string, user: string, password: string,
                     dbname: string, sslmode: string)
    ensures IsPlain(host) && IsPlain(port) && IsPlain(user) && IsPlain(password)
            && IsPlain(dbname) && IsPlain(sslmode)
            ==> Render(Settings(host, port, user, password, dbname, sslmode), Auto)
                == GetDsn(host, port, user, password, dbname, sslmode)
  {
    if IsPlain(host) && IsPlain(port) && IsPlain(user) && IsPlain(password)
       && IsPlain(dbname) && IsPlain(sslmode) {
      SettingsRenderable(host, port, user, password, dbname, sslmode, Bare);
      RenderAutoPlain(Settings(host, port, user, password, dbname, sslmode));
    }
  }

  /** Where every value is plain, writing values bare only when plain is
      writing them all bare. */
  lemma {:induction false} RenderAutoPlain(settings: seq<Setting>)
    requires Renderable(settings, Bare)
    ensures Render(settings, Auto) == Render(settings, Bare)
  {
    if |settings| > 1 {
      RenderAutoPlain(settings[1..]);
    }
  }

  /** The corrected writer still produces the string the repository's test
      expects. */
  lemma GetDsnFixedTestCase()
    ensures GetDsnFixed("testhost", "testport", "testuser", "testpassword", "testdb", "disable")
            == "host=testhost port=testport user=testuser password=testpassword dbname=testdb sslmode=disable"
  {
    assert IsPlain("testhost") && IsPlain("testport") && IsPlain("testuser");
    assert IsPlain("testpassword") && IsPlain("testdb") && IsPlain("disable");
    GetDsnTestCase();
  }

  /** An unset variable is written as an empty quoted value, so an empty
      host no longer takes the next setting. */
  lemma GetDsnFixedEmptyHost(port: string, user: string, password: string, dbname: string, sslmode: string)
    ensures Parse(GetDsnFixed("", port, user, password, dbname, sslmode)).value[0] == Setting("host", "")
    ensures |GetDsnFixed("", port, user, password, dbname, sslmode)| >= 7
    ensures GetDsnFixed("", port, user, password, dbname, sslmode)[..7] == "host=''"
  {
    var st := Settings("", port, user, password, dbname, sslmode);
    assert Field(st[0], Auto) == "host=''";
    RenderCons(st, Auto);
  }
}
