/** The export of tools/observatory_export.py: rows are refused by field class, by a
    credential pattern and for a missing host; the target is cut to scheme, host and path. */
module Redaction {

  import opened Text
  import opened UrlSplit

  datatype Value = Null | Str(text: string) | Other(id: int)

  type Record = map<string, Value>

  /** The word lists and library checks: refused field names (compared in lower case), refused
      value texts, how `str` shows other values, and what `urlsplit` accepts as an authority. */
  datatype Rules = Rules(
    nameRefused: string -> bool,
    textRefused: string -> bool,
    show: int -> string,
    netlocOk: string -> bool)

  /** The exported columns. */
  const FIELDS: set<string> :=
    {"seq", "ts_millis", "identity", "request_class", "origin", "target", "rule_id", "rule",
     "list_id", "bundle_version", "action", "why_code", "page_modifying"}

  const TARGET := "target"
  const CLASS := "request_class"
  const CLASS_ALIAS := "type"

  datatype Refusal = FieldClass | Credentials | InvalidUrl | MissingHost

  datatype Outcome<T> = Accepted(value: T) | Refused(why: Refusal)

  /** The target as text; a row without one has the empty target. */
  function TargetText(row: Record, rules: Rules): string {
    if TARGET !in row then ""
    else
      match row[TARGET]
      case Null => "None"
      case Str(text) => text
      case Other(id) => rules.show(id)
  }

  predicate FieldRefused(name: string, value: Value, rules: Rules) {
    rules.nameRefused(name) || (value.Str? && rules.textRefused(value.text))
  }

  predicate AnyFieldRefused(row: Record, rules: Rules) {
    exists name | name in row :: name != TARGET && FieldRefused(name, row[name], rules)
  }

  predicate EndsUser(c: char) {
    c == '/' || c == '@' || IsSpace(c)
  }

  /** An authority starting with `user:password@`, the user not empty. */
  predicate HasUserInfo(s: string) {
    var m := Until(s, EndsUser);
    m < |s| && s[m] == '@' && exists i | 1 <= i < m :: s[i] == ':'
  }

  /** The credential pattern: a scheme, `://` and user information, at the very start. */
  predicate HasCredentials(target: string) {
    var k := Until(target, IsColon);
    && k + 3 <= |target|
    && IsScheme(target[..k])
    && target[k + 1] == target[k + 2] == '/'
    && HasUserInfo(target[k + 3..])
  }

  function Redact(row: Record, full: bool, rules: Rules): Outcome<Record> {
    var target := TargetText(row, rules);
    var parts := SplitTarget(target);
    if AnyFieldRefused(row, rules) then Refused(FieldClass)
    else if HasCredentials(target) then Refused(Credentials)
    else if !rules.netlocOk(parts.netloc) then Refused(InvalidUrl)
    else if parts.netloc == "" then Refused(MissingHost)
    else Accepted(row[TARGET := Str(Redacted(parts, full))])
  }

  lemma CopyOne(row: Record, todo: set<string>, name: string)
    requires name in todo && name in row
    ensures row - (todo - {name}) - {TARGET} ==
              if name == TARGET then row - todo - {TARGET} else (row - todo - {TARGET})[name := row[name]]
  {
    hide TARGET;
  }

  lemma CopiedAll(row: Record, value: Value)
    ensures (row - {} - {TARGET})[TARGET := value] == row[TARGET := value]
  {
    hide TARGET;
  }

  /** The code's loop over the items copies every field but the target. */
  method RedactRow(row: Record, full: bool, rules: Rules) returns (r: Outcome<Record>)
    ensures r == Redact(row, full, rules)
  {
    hide SplitTarget, HasCredentials, Redacted, TargetText, TARGET;
    var out: Record := map[];
    var todo := row.Keys;
    while todo != {}
      invariant todo <= row.Keys
      invariant out == row - todo - {TARGET}
      invariant forall name | name in row && name !in todo && name != TARGET :: !FieldRefused(name, row[name], rules)
      decreases |todo|
    {
      var name: string :| name in todo;
      CopyOne(row, todo, name);
      todo := todo - {name};
      if name == TARGET {
        continue;
      }
      var value := row[name];
      if rules.nameRefused(name) || (value.Str? && rules.textRefused(value.text)) {
        assert FieldRefused(name, value, rules);
        return Refused(FieldClass);
      }
      assert !FieldRefused(name, value, rules);
      out := out[name := row[name]];
    }
    var target := TargetText(row, rules);
    if HasCredentials(target) {
      return Refused(Credentials);
    }
    var parts := SplitTarget(target);
    if !rules.netlocOk(parts.netloc) {
      return Refused(InvalidUrl);
    }
    if parts.netloc == "" {
      return Refused(MissingHost);
    }
    CopiedAll(row, Str(Redacted(parts, full)));
    return Accepted(out[TARGET := Str(Redacted(parts, full))]);
  }

  /** A column's value, or the one stored under its alias. */
  function Pick(row: Record, name: string): Value {
    if name in row then row[name]
    else if name == CLASS && CLASS_ALIAS in row then row[CLASS_ALIAS]
    else Null
  }

  function Columns(row: Record): (r: Record)
    ensures r.Keys == FIELDS
  {
    map name | name in FIELDS :: Pick(row, name)
  }

  function ExportRow(row: Record, full: bool, rules: Rules): Outcome<Record> {
    match Redact(row, full, rules)
    case Accepted(out) => Accepted(Columns(out))
    case Refused(why) => Refused(why)
  }

  /** All rows, or the first refusal. */
  function Export(rows: seq<Record>, full: bool, rules: Rules): Outcome<seq<Record>> {
    if rows == [] then Accepted([])
    else
      match ExportRow(rows[0], full, rules)
      case Refused(why) => Refused(why)
      case Accepted(first) =>
        match Export(rows[1..], full, rules)
        case Refused(why) => Refused(why)
        case Accepted(rest) => Accepted([first] + rest)
  }

  // ----- what is refused, and why -----------------------------------------------------------

  /** A row is refused by class exactly when some field other than the target has a refused
      name or a text of a refused class. */
  lemma FieldClassExactly(row: Record, full: bool, rules: Rules)
    ensures ExportRow(row, full, rules) == Refused(FieldClass) <==>
              exists name | name in row :: name != "target" &&
                (rules.nameRefused(name) || (row[name].Str? && rules.textRefused(row[name].text)))
  {
    hide HasCredentials, SplitTarget, Redacted, Columns, TargetText;
    assert forall name | name in row :: FieldRefused(name, row[name], rules) <==>
      rules.nameRefused(name) || (row[name].Str? && rules.textRefused(row[name].text));
  }

  /** No text of a refused class leaves, under whatever name it stood in the row. */
  lemma ExportedTextIsHarmless(row: Record, full: bool, rules: Rules)
    requires ExportRow(row, full, rules).Accepted?
    ensures var out := ExportRow(row, full, rules).value;
            forall name | name in out && name != "target" && out[name].Str? :: !rules.textRefused(out[name].text)
  {
    FieldClassExactly(row, full, rules);
    ExportedColumns(row, full, rules);
    hide ExportRow;
  }

  /** The exported columns are the thirteen, each with the row's own value, or its `type` for
      a missing `request_class`, or nothing; and the target as text. */
  lemma ExportedColumns(row: Record, full: bool, rules: Rules)
    requires ExportRow(row, full, rules).Accepted?
    ensures var out := ExportRow(row, full, rules).value;
            && out.Keys == {"seq", "ts_millis", "identity", "request_class", "origin", "target", "rule_id",
                            "rule", "list_id", "bundle_version", "action", "why_code", "page_modifying"}
            && out["target"].Str?
            && (forall name | name in out && name != "target" && name in row :: out[name] == row[name])
            && ("request_class" !in row && "type" in row ==> out["request_class"] == row["type"])
            && (forall name | name in out && name !in row && name != "target" ::
                  (name == "request_class" ==> "type" !in row) ==> out[name] == Null)
  {
    hide HasCredentials, SplitTarget, Redacted, AnyFieldRefused, FIELDS;
    var p := SplitTarget(TargetText(row, rules));
    var shown := row[TARGET := Str(Redacted(p, full))];
    assert ExportRow(row, full, rules).value == Columns(shown);
    FieldNames();
    assert forall name | name != TARGET :: name in shown <==> name in row;
  }

  lemma FieldNames()
    ensures FIELDS == {"seq", "ts_millis", "identity", "request_class", "origin", "target", "rule_id",
                       "rule", "list_id", "bundle_version", "action", "why_code", "page_modifying"}
    ensures CLASS in FIELDS && TARGET in FIELDS && CLASS != TARGET && CLASS_ALIAS != TARGET
  {
  }

  lemma {:induction false} ExportIsHarmless(rows: seq<Record>, full: bool, rules: Rules)
    requires Export(rows, full, rules).Accepted?
    ensures var outs := Export(rows, full, rules).value;
            && |outs| == |rows|
            && forall i | 0 <= i < |outs| :: ExportRow(rows[i], full, rules) == Accepted(outs[i])
                 && forall name | name in outs[i] && name != "target" && outs[i][name].Str? :: !rules.textRefused(outs[i][name].text)
  {
    hide ExportRow;
    if rows != [] {
      ExportedTextIsHarmless(rows[0], full, rules);
      ExportIsHarmless(rows[1..], full, rules);
    }
  }

  /** `scheme://user:password@` and anything behind it. */
  ghost predicate StartsWithCredentials(s: string, scheme: string, user: string, password: string, rest: string) {
    && s == scheme + "://" + user + ":" + password + "@" + rest
    && scheme != "" && ('a' <= scheme[0] <= 'z' || 'A' <= scheme[0] <= 'Z')
    && (forall c | c in scheme :: 'a' <= c <= 'z' || 'A' <= c <= 'Z' || '0' <= c <= '9' || c in {'+', '.', '-'})
    && user != "" && (forall c | c in user + password :: c != '/' && c != '@' && !IsSpace(c))
  }

  lemma UserInfoShape(user: string, password: string, rest: string)
    requires user != "" && forall c | c in user + password :: c != '/' && c != '@' && !IsSpace(c)
    ensures HasUserInfo(user + [':'] + password + ['@'] + rest)
  {
    var authority := user + [':'] + password + ['@'] + rest;
    var m := |user| + 1 + |password|;
    hide IsSpace;
    assert forall c | c in user + password :: !EndsUser(c);
    assert !EndsUser(':') by { ColonIsNoSpace(); }
    hide EndsUser;
    forall i | 0 <= i < m ensures !EndsUser(authority[i]) {
      if i < |user| {
        assert authority[i] == (user + password)[i];
      } else if i > |user| {
        assert authority[i] == (user + password)[i - 1];
      }
    }
    assert authority[m] == '@' && authority[|user|] == ':';
    assert EndsUser('@') by { AtEndsUser(); }
    UntilIs(authority, EndsUser, m);
  }

  lemma ColonIsNoSpace()
    ensures !IsSpace(':')
  {
  }

  lemma AtEndsUser()
    ensures EndsUser('@')
  {
  }

  lemma SchemeShape(scheme: string, authority: string)
    requires scheme != "" && ('a' <= scheme[0] <= 'z' || 'A' <= scheme[0] <= 'Z')
    requires forall c | c in scheme :: 'a' <= c <= 'z' || 'A' <= c <= 'Z' || '0' <= c <= '9' || c in {'+', '.', '-'}
    requires HasUserInfo(authority)
    ensures HasCredentials(scheme + ([':', '/', '/'] + authority))
  {
    hide HasUserInfo;
    var k := |scheme|;
    var s := scheme + ([':', '/', '/'] + authority);
    forall i | 0 <= i < k ensures !IsColon(s[i]) {
      assert s[i] == scheme[i] && scheme[i] in scheme;
    }
    UntilIs(s, IsColon, k);
    assert s[..k] == scheme && s[k + 3..] == authority;
    assert AllOf(scheme, IsSchemeChar);
  }

  lemma CredentialsShape(s: string, scheme: string, user: string, password: string, rest: string)
    requires StartsWithCredentials(s, scheme, user, password, rest)
    ensures HasCredentials(s)
  {
    var authority := user + [':'] + password + ['@'] + rest;
    UserInfoShape(user, password, rest);
    SchemeShape(scheme, authority);
    hide HasUserInfo, HasCredentials;
    SevenParts(scheme, user, password, rest);
  }

  lemma SevenParts(scheme: string, user: string, password: string, rest: string)
    ensures scheme + "://" + user + ":" + password + "@" + rest ==
              scheme + ([':', '/', '/'] + (user + [':'] + password + ['@'] + rest))
  {
    var authority := user + [':'] + password + ['@'] + rest;
    assert "://" == [':', '/', '/'];
    assert scheme + "://" + user + ":" + password + "@" + rest == (scheme + [':', '/', '/']) + authority;
  }

  lemma CutAtColon(text: string, i: nat, m: nat)
    requires i < m < |text| && text[i] == ':' && text[m] == '@'
    ensures text == text[..i] + ":" + text[i + 1..m] + "@" + text[m + 1..]
  {
    assert text == text[..i] + [text[i]] + text[i + 1..m] + [text[m]] + text[m + 1..];
  }

  lemma CutAtSlashes(s: string, k: nat)
    requires k + 3 <= |s| && s[k] == ':' && s[k + 1] == s[k + 2] == '/'
    ensures s == s[..k] + "://" + s[k + 3..]
  {
    assert s == s[..k] + [s[k], s[k + 1], s[k + 2]] + s[k + 3..];
  }

  lemma SchemeLetters(scheme: string)
    requires IsScheme(scheme)
    ensures scheme != "" && ('a' <= scheme[0] <= 'z' || 'A' <= scheme[0] <= 'Z')
    ensures forall c | c in scheme :: 'a' <= c <= 'z' || 'A' <= c <= 'Z' || '0' <= c <= '9' || c in {'+', '.', '-'}
  {
    forall c | c in scheme ensures 'a' <= c <= 'z' || 'A' <= c <= 'Z' || '0' <= c <= '9' || c in {'+', '.', '-'} {
      assert IsSchemeChar(c);
    }
  }

  lemma CredentialsParts(s: string) returns (scheme: string, user: string, password: string, rest: string)
    requires HasCredentials(s)
    ensures StartsWithCredentials(s, scheme, user, password, rest)
  {
    var k := Until(s, IsColon);
    var authority := s[k + 3..];
    scheme := s[..k];
    CutAtSlashes(s, k);
    SchemeLetters(scheme);
    user, password, rest := UserParts(authority);
    hide IsScheme, HasUserInfo, HasCredentials, IsSpace;
    Joined(scheme, user, password, rest);
  }

  lemma Joined(scheme: string, user: string, password: string, rest: string)
    ensures scheme + "://" + (user + ":" + password + "@" + rest) == scheme + "://" + user + ":" + password + "@" + rest
  {
  }

  lemma UserParts(authority: string) returns (user: string, password: string, rest: string)
    requires HasUserInfo(authority)
    ensures authority == user + ":" + password + "@" + rest
    ensures user != "" && forall c | c in user + password :: c != '/' && c != '@' && !IsSpace(c)
  {
    var m := Until(authority, EndsUser);
    var i :| 1 <= i < m && authority[i] == ':';
    user, password, rest := authority[..i], authority[i + 1..m], authority[m + 1..];
    CutAtColon(authority, i, m);
    hide IsSpace;
    assert forall n | 0 <= n < m :: !EndsUser(authority[n]);
  }

  /** A target is refused for credentials exactly when it starts with a scheme, `://`, a user,
      a colon, a password that may be empty, and `@`. */
  lemma CredentialsExactly(s: string)
    ensures HasCredentials(s) <==>
              exists scheme, user, password, rest :: StartsWithCredentials(s, scheme, user, password, rest)
  {
    hide HasCredentials, StartsWithCredentials;
    if HasCredentials(s) {
      var scheme, user, password, rest := CredentialsParts(s);
    }
    if scheme, user, password, rest :| StartsWithCredentials(s, scheme, user, password, rest) {
      CredentialsShape(s, scheme, user, password, rest);
    }
  }

  /** No fragment is ever exported, and no query unless it was asked for. */
  lemma ExportedTargetIsBare(p: Parts, full: bool)
    requires Regular(p)
    ensures NoneOf(Redacted(p, full), IsHash)
    ensures !full ==> NoneOf(Redacted(p, full), IsQuestion)
  {
    RedactedText(p, full);
    hide Redacted, Lower;
    assert NoneOf(p.scheme, IsHash) && NoneOf(p.scheme, IsQuestion);
    assert NoneOf(p.netloc, IsHash) && NoneOf(p.netloc, IsQuestion);
    assert NoneOf(Tail(p, full), IsHash);
  }

  /** What is exported of a written target: scheme in lower case, host and path, and the query
      if it was asked for and is not empty. */
  lemma WrittenTargetIsExported(row: Record, full: bool, rules: Rules, pad: string, scheme: string, host: string, r: Rest)
    requires (forall c | c in pad :: c as int <= 0x20) && SchemeText(scheme)
    requires NoneIn(host, {'/', '?', '#', '\t', '\r', '\n'}) && RestText(r)
    requires TargetText(row, rules) == pad + (scheme + [':'] + (['/', '/'] + (host + RestOf(r))))
    requires ExportRow(row, full, rules).Accepted?
    ensures ExportRow(row, full, rules).value["target"] ==
              Str(Lower(scheme) + "://" + host + (if r.path == "" then "/" else r.path)
                  + (if full && Given(r.query) != "" then "?" + Given(r.query) else ""))
  {
    hide HasCredentials, SplitTarget, AnyFieldRefused, TargetText, RestText, SchemeText, FIELDS, Lower;
    WrittenTargetReads(pad, scheme, host, r);
    FieldNames();
  }

  // ----- exporting an export ---------------------------------------------------------------

  /** The exported columns are not themselves refused names. */
  ghost predicate ColumnsAllowed(rules: Rules) {
    forall name | name in FIELDS :: !rules.nameRefused(name)
  }

  /** The host that is exported starts with user information: the credential pattern looks for
      a scheme first, so a target without one gets this far. */
  predicate CarriesUserInfo(row: Record, rules: Rules) {
    HasUserInfo(SplitTarget(TargetText(row, rules)).netloc)
  }

  lemma UserInfoBeforePath(netloc: string, tail: string)
    requires tail != "" && tail[0] == '/'
    ensures HasUserInfo(netloc + tail) <==> HasUserInfo(netloc)
  {
    var m := Until(netloc, EndsUser);
    var s := netloc + tail;
    assert s[|netloc|] == '/';
    UntilIs(s, EndsUser, m);
    assert forall i | 0 <= i < m :: s[i] == netloc[i];
  }

  lemma CredentialsOfRedacted(p: Parts, full: bool)
    requires Regular(p)
    ensures HasCredentials(Redacted(p, full)) <==> HasUserInfo(p.netloc)
  {
    hide HasUserInfo, Redacted, Lower;
    var rest := ['/', '/'] + p.netloc + Tail(p, full);
    var url := p.scheme + [':'] + rest;
    RedactedText(p, full);
    forall i | 0 <= i < |p.scheme| ensures !IsColon(url[i]) {
      assert url[i] == p.scheme[i] && p.scheme[i] in p.scheme;
    }
    UntilIs(url, IsColon, |p.scheme|);
    assert url[..|p.scheme|] == p.scheme;
    assert url[|p.scheme| + 3..] == p.netloc + Tail(p, full);
    UserInfoBeforePath(p.netloc, Tail(p, full));
  }

  lemma RedactedTwice(p: Parts, f: bool, g: bool)
    ensures Redacted(p.(query := if f then p.query else "", fragment := ""), g) == Redacted(p, f && g)
  {
  }

  /** An accepted row's columns pass the field rules again. */
  lemma ColumnsPass(row: Record, text: string, rules: Rules)
    requires ColumnsAllowed(rules) && !AnyFieldRefused(row, rules)
    ensures !AnyFieldRefused(Columns(row[TARGET := Str(text)]), rules)
  {
    hide FIELDS;
    var out := row[TARGET := Str(text)];
    var columns := Columns(out);
    forall name | name in columns && name != TARGET ensures !FieldRefused(name, columns[name], rules) {
      assert columns[name] == Pick(out, name);
      assert name in out ==> name in row;
      assert CLASS_ALIAS in out ==> CLASS_ALIAS in row && out[CLASS_ALIAS] == row[CLASS_ALIAS];
    }
  }

  lemma ColumnsTwice(out: Record, value: Value)
    requires TARGET in out
    ensures Columns(Columns(out)[TARGET := value]) == Columns(out[TARGET := value])
  {
    assert TARGET in FIELDS;
    hide FIELDS;
    assert Columns(out)[TARGET := value].Keys == FIELDS;
  }

  /** An exported row's target splits into the parts it shows. */
  lemma ExportedTarget(row: Record, f: bool, rules: Rules)
    requires Redact(row, f, rules).Accepted?
    ensures var p := SplitTarget(TargetText(row, rules));
            && Regular(p)
            && ExportRow(row, f, rules) == Accepted(Columns(row[TARGET := Str(Redacted(p, f))]))
            && TargetText(Columns(row[TARGET := Str(Redacted(p, f))]), rules) == Redacted(p, f)
  {
    hide SplitTarget, HasCredentials, Redacted, Regular, AnyFieldRefused;
    TargetIsRegular(TargetText(row, rules));
    assert TARGET in FIELDS;
  }

  /** Exporting an exported row is exporting once with the query kept only if both times it
      is kept; except that a host with user information is refused the second time. */
  lemma RowComposes(row: Record, f: bool, g: bool, rules: Rules)
    requires ColumnsAllowed(rules) && ExportRow(row, f, rules).Accepted?
    ensures ExportRow(ExportRow(row, f, rules).value, g, rules) ==
              if CarriesUserInfo(row, rules) then Refused(Credentials) else ExportRow(row, f && g, rules)
  {
    hide SplitTarget, HasCredentials, Redacted, Regular, AnyFieldRefused, TargetText, Columns, HasUserInfo, ColumnsAllowed;
    var p := SplitTarget(TargetText(row, rules));
    var text := Redacted(p, f);
    var out := row[TARGET := Str(text)];
    ExportedTarget(row, f, rules);
    ColumnsPass(row, text, rules);
    CredentialsOfRedacted(p, f);
    SplitRedacted(p, f);
    RedactedTwice(p, f, g);
    ColumnsTwice(out, Str(Redacted(p, f && g)));
    assert out[TARGET := Str(Redacted(p, f && g))] == row[TARGET := Str(Redacted(p, f && g))];
  }

  /** An export carries what the credential pattern refuses exactly when the host of the
      given target has user information. */
  lemma ExportCarriesCredentialsExactly(row: Record, full: bool, rules: Rules)
    requires ExportRow(row, full, rules).Accepted?
    ensures var exported := TargetText(ExportRow(row, full, rules).value, rules);
            HasCredentials(exported) <==> CarriesUserInfo(row, rules)
  {
    hide HasCredentials, SplitTarget, Redacted, HasUserInfo, Columns, AnyFieldRefused, Regular;
    ExportedTarget(row, full, rules);
    CredentialsOfRedacted(SplitTarget(TargetText(row, rules)), full);
  }

  /** What is accepted does not depend on whether the query is kept. */
  lemma SameRowsAccepted(row: Record, f: bool, g: bool, rules: Rules)
    ensures ExportRow(row, f, rules).Accepted? <==> ExportRow(row, g, rules).Accepted?
  {
    hide AnyFieldRefused, HasCredentials, SplitTarget, TargetText, Redacted, Columns;
  }

  predicate AnyUserInfo(rows: seq<Record>, rules: Rules) {
    exists row | row in rows :: CarriesUserInfo(row, rules)
  }

  /** Exports compose. With f == g this says that exporting twice is exporting once, with f
      kept and g default that a default export of a query-keeping export is a direct default
      export: exactly when no host carries user information. */
  lemma {:induction false} ExportsCompose(rows: seq<Record>, f: bool, g: bool, rules: Rules)
    requires ColumnsAllowed(rules) && Export(rows, f, rules).Accepted?
    ensures Export(Export(rows, f, rules).value, g, rules) ==
              if AnyUserInfo(rows, rules) then Refused(Credentials) else Export(rows, f && g, rules)
  {
    hide ExportRow, CarriesUserInfo, ColumnsAllowed;
    if rows != [] {
      var first, rest := ExportRow(rows[0], f, rules).value, Export(rows[1..], f, rules).value;
      RowComposes(rows[0], f, g, rules);
      SameRowsAccepted(rows[0], f, f && g, rules);
      ExportsCompose(rows[1..], f, g, rules);
      assert ([first] + rest)[1..] == rest;
      assert AnyUserInfo(rows, rules) <==> CarriesUserInfo(rows[0], rules) || AnyUserInfo(rows[1..], rules) by {
        assert rows == [rows[0]] + rows[1..];
      }
    }
  }

  // ----- what is dropped does not matter -----------------------------------------------------

  /** The parts that are kept. */
  predicate SameParts(p: Parts, q: Parts) {
    p.scheme == q.scheme && p.netloc == q.netloc && p.path == q.path
  }

  predicate IsTail(s: string) {
    s == "" || StartsDropped(s)
  }

  /** Two targets that differ only from `?` or `#` on keep the same parts exactly when both
      contain `//` or neither does. */
  lemma TailsDoNotMatter(base: string, s: string, t: string)
    requires IsTail(s) && IsTail(t)
    requires SplitTarget(base + s).netloc != "" && SplitTarget(base + t).netloc != ""
    ensures SameParts(SplitTarget(base + s), SplitTarget(base + t)) <==> HasSlashes(base + s) == HasSlashes(base + t)
  {
    hide SplitUrl, HasSlashes, StartsDropped;
    TailIsDropped(base, s);
    TailIsDropped(base, t);
    assert "//" + (base + s) == ("//" + base) + s && "//" + (base + t) == ("//" + base) + t;
    TailIsDropped("//" + base, s);
    TailIsDropped("//" + base, t);
    if HasSlashes(base + s) != HasSlashes(base + t) {
      ReadingsDiffer(base);
    }
  }

  lemma SameTextSameParts(p: Parts, q: Parts)
    requires Regular(p) && Regular(q) && Redacted(p, false) == Redacted(q, false)
    ensures SameParts(p, q)
  {
    hide Regular, Redacted, SplitTarget;
    SplitRedacted(p, false);
    SplitRedacted(q, false);
  }

  predicate SameOtherColumns(row: Record, other: Record) {
    forall name | name in FIELDS && name != TARGET :: Pick(row, name) == Pick(other, name)
  }

  lemma ColumnsAgree(row: Record, other: Record, x: Value, y: Value)
    requires SameOtherColumns(row, other)
    ensures Columns(row[TARGET := x]) == Columns(other[TARGET := y]) <==> x == y
  {
    assert TARGET in FIELDS && CLASS_ALIAS != TARGET;
    hide FIELDS;
    var a, b := row[TARGET := x], other[TARGET := y];
    assert forall name | name != TARGET :: Pick(a, name) == Pick(row, name) && Pick(b, name) == Pick(other, name);
    assert Columns(a)[TARGET] == x && Columns(b)[TARGET] == y;
  }

  /** Two accepted rows that differ only in the query, the fragment or fields that are not
      exported are exported alike exactly when both targets contain `//` or neither does. */
  lemma DroppedPartsDoNotMatter(row: Record, other: Record, base: string, s: string, t: string, rules: Rules)
    requires ExportRow(row, false, rules).Accepted? && ExportRow(other, false, rules).Accepted?
    requires SameOtherColumns(row, other) && IsTail(s) && IsTail(t)
    requires TargetText(row, rules) == base + s && TargetText(other, rules) == base + t
    ensures ExportRow(row, false, rules) == ExportRow(other, false, rules) <==> HasSlashes(base + s) == HasSlashes(base + t)
  {
    hide HasCredentials, AnyFieldRefused, IsTail, TargetText, SplitTarget, HasSlashes, Columns, Regular, SameOtherColumns;
    var p, q := SplitTarget(base + s), SplitTarget(base + t);
    TailsDoNotMatter(base, s, t);
    ExportedTarget(row, false, rules);
    ExportedTarget(other, false, rules);
    ColumnsAgree(row, other, Str(Redacted(p, false)), Str(Redacted(q, false)));
    if Redacted(p, false) == Redacted(q, false) {
      SameTextSameParts(p, q);
    }
  }

  /** Without tabs and line breaks before the tail the condition always holds: an accepted
      target has its `//` there if it has one at all. */
  lemma CleanBaseAgrees(base: string, s: string)
    requires IsTail(s) && SplitTarget(base + s).netloc != "" && NoneOf(base, IsUnsafe)
    ensures HasSlashes(base + s) <==> HasSlashes(base)
  {
    hide HasSlashes, SplitUrl, StartsDropped, PathAfter, Until, Without;
    if HasSlashes(base) {
      SlashesStay("", base, s);
      assert "" + base + s == base + s;
    } else if HasSlashes(base + s) {
      TailIsDropped(base, s);
      AuthorityHasSlashes(base);
    }
  }

  lemma AuthorityHasSlashes(base: string)
    requires SplitUrl(base).netloc != "" && NoneOf(base, IsUnsafe)
    ensures HasSlashes(base)
  {
    hide HasSlashes, SplitUrl, PathAfter, Until, Without;
    var mark, tail := AuthorityInside(base);
    HasTwoSlashes();
    SlashesStay(mark, ['/', '/'], tail);
    assert mark + ['/', '/'] + tail == mark + (['/', '/'] + tail) == base;
  }

  lemma SlashesStay(a: string, b: string, c: string)
    requires HasSlashes(b)
    ensures HasSlashes(a + b + c)
  {
    var i :| 0 <= i < |b| - 1 && b[i] == b[i + 1] == '/';
    var s := a + b + c;
    assert s[|a| + i] == b[i] && s[|a| + i + 1] == b[i + 1];
  }

  lemma HasTwoSlashes()
    ensures HasSlashes(['/', '/'])
  {
    var s := ['/', '/'];
    assert s[0] == s[0 + 1] == '/';
  }

  // ----- inputs for which the laws fail --------------------------------------------------------

  lemma SchemelessTarget(netloc: string)
    requires NoneOf(netloc, EndsNetloc) && NoneOf(netloc, IsUnsafe)
    ensures var target := "//" + (netloc + "/");
            !HasCredentials(target) && SplitTarget(target) == Parts("https", netloc, "/", "", "")
  {
    var rest := netloc + "/";
    var target := "//" + rest;
    assert target == ['/', '/'] + netloc + "/";
    CleanKeeps(target);
    NoScheme(target);
    SplitsNetloc(netloc, "/");
    SplitsPath("/", "", "/");
    assert target[0] == target[0 + 1] == '/';
    hide Clean, SplitScheme, SplitNetloc, Cut;
    assert SplitUrl(target) == Parts("", netloc, "/", "", "");
  }

  lemma PlainHost(netloc: string)
    requires NoneOf(netloc, EndsNetloc) && NoneOf(netloc, IsUnsafe) && NoneOf(netloc, IsColon)
    ensures !HasCredentials(netloc) && SplitTarget(netloc) == Parts("https", netloc, "/", "", "")
  {
    var target := "//" + netloc;
    assert target == ['/', '/'] + netloc;
    assert !HasSlashes(netloc) by {
      assert forall i | 0 <= i < |netloc| :: netloc[i] in netloc;
    }
    UntilIs(netloc, IsColon, |netloc|);
    CleanKeeps(target);
    NoScheme(target);
    AllNetloc(netloc);
    assert Cut("", IsHash) == Cut("", IsQuestion) == ("", "");
    hide Clean, SplitScheme, SplitNetloc, Cut;
    assert SplitUrl(target) == Parts("", netloc, "", "", "");
  }

  lemma AllNetloc(netloc: string)
    requires NoneOf(netloc, EndsNetloc)
    ensures SplitNetloc(['/', '/'] + netloc) == (netloc, "")
  {
    assert (['/', '/'] + netloc)[2..] == netloc;
    UntilIs(netloc, EndsNetloc, |netloc|);
    assert netloc[..|netloc|] == netloc && netloc[|netloc|..] == "";
  }

  lemma NothingHasNoHost()
    ensures !HasCredentials("") && SplitTarget("").netloc == ""
  {
    hide HasCredentials, SplitTarget;
    PlainHost("");
  }

  /** A row without a target has no host. */
  lemma NoTargetIsRefused(row: Record, full: bool, rules: Rules)
    requires "target" !in row && rules.netlocOk("")
    ensures ExportRow(row, full, rules) in {Refused(FieldClass), Refused(MissingHost)}
  {
    NothingHasNoHost();
    hide HasCredentials, SplitTarget, AnyFieldRefused, Columns, Redacted, NoneOf;
    assert TargetText(row, rules) == "";
  }

  lemma NoneIsPlain()
    ensures !HasCredentials("None") && SplitTarget("None") == Parts("https", "None", "/", "", "")
  {
    assert NoneOf("None", EndsNetloc) && NoneOf("None", IsUnsafe) && NoneOf("None", IsColon);
    PlainHost("None");
  }

  lemma ShownNone(full: bool)
    ensures Redacted(Parts("https", "None", "/", "", ""), full) == "https://None/"
  {
  }

  /** A null target is not refused: it is read as the host `None`. */
  lemma NullTargetIsExported(row: Record, full: bool, rules: Rules)
    requires "target" in row && row["target"] == Null && rules.netlocOk("None")
    requires forall name | name in row && name != "target" ::
               !rules.nameRefused(name) && (row[name].Str? ==> !rules.textRefused(row[name].text))
    ensures ExportRow(row, full, rules).Accepted? && ExportRow(row, full, rules).value["target"] == Str("https://None/")
  {
    NoneIsPlain();
    FieldNames();
    hide HasCredentials, SplitTarget, NoneOf, FIELDS;
    assert !AnyFieldRefused(row, rules);
    hide AnyFieldRefused;
    assert TargetText(row, rules) == "None";
    ShownNone(full);
    hide Redacted;
  }

  /** A target that starts with `//` and user information is exported with a scheme in front,
      and the export is then refused. */
  lemma SecondExportIsRefused(netloc: string, rules: Rules)
    requires ColumnsAllowed(rules) && rules.netlocOk(netloc)
    requires NoneOf(netloc, EndsNetloc) && NoneOf(netloc, IsUnsafe) && HasUserInfo(netloc)
    ensures var row: Record := map[TARGET := Str("//" + (netloc + "/"))];
            && ExportRow(row, false, rules).Accepted?
            && HasCredentials(TargetText(ExportRow(row, false, rules).value, rules))
            && ExportRow(ExportRow(row, false, rules).value, false, rules) == Refused(Credentials)
  {
    hide HasCredentials, SplitTarget, HasUserInfo, Columns, ColumnsAllowed;
    var row: Record := map[TARGET := Str("//" + (netloc + "/"))];
    SchemelessTarget(netloc);
    assert netloc != "" by { NoUserInfoInNothing(); }
    assert !AnyFieldRefused(row, rules);
    ExportCarriesCredentialsExactly(row, false, rules);
    RowComposes(row, false, false, rules);
  }

  lemma NoUserInfoInNothing()
    ensures !HasUserInfo("")
  {
  }

  /** `scheme:/<tab>/host` */
  function TabText(scheme: string, host: string): string {
    scheme + [':'] + (['/'] + (['\t'] + (['/'] + host)))
  }

  lemma TabSlashes(scheme: string, host: string)
    requires IsScheme(scheme) && NoneOf(host, EndsNetloc)
    ensures !HasSlashes(TabText(scheme, host)) && HasSlashes(TabText(scheme, host) + "?//")
  {
    var base, n := TabText(scheme, host), |scheme|;
    forall i | 0 <= i < |base| - 1 ensures !(base[i] == base[i + 1] == '/') {
      if i >= n + 3 {
        assert base[i + 1] == host[i - n - 3] && host[i - n - 3] in host;
      } else if i < n {
        assert base[i] == scheme[i] && scheme[i] in scheme;
      }
    }
    var s := base + "?//";
    assert s[|base| + 1] == s[|base| + 1 + 1] == '/';
  }

  lemma WithoutHead(c: char, s: string)
    ensures Without([c] + s, IsUnsafe) == if IsUnsafe(c) then Without(s, IsUnsafe) else [c] + Without(s, IsUnsafe)
  {
    assert ([c] + s)[1..] == s;
  }

  lemma TabRemoved(scheme: string, host: string)
    requires IsScheme(scheme) && NoneOf(host, IsUnsafe)
    ensures var base := TabText(scheme, host);
            Without(base, IsUnsafe) == Clean(base) == scheme + [':'] + (['/', '/'] + host)
  {
    var lead, rest := scheme + [':'], ['/'] + (['\t'] + (['/'] + host));
    var base := TabText(scheme, host);
    assert base[0] == scheme[0];
    NotStripped(base);
    assert NoneOf(lead, IsUnsafe);
    hide LStrip, Without;
    WithoutSplits(lead, rest, IsUnsafe);
    TabTail(host);
  }

  lemma NotStripped(s: string)
    requires s != "" && !IsControl(s[0])
    ensures LStrip(s, IsControl) == s
  {
  }

  lemma TabTail(host: string)
    requires NoneOf(host, IsUnsafe)
    ensures Without(['/'] + (['\t'] + (['/'] + host)), IsUnsafe) == ['/', '/'] + host
  {
    hide Without;
    var slash := ['/'] + host;
    var tab := ['\t'] + slash;
    TwoSlashes(host);
    assert Without(slash, IsUnsafe) == slash by { WithoutHead('/', host); }
    assert Without(tab, IsUnsafe) == slash by { WithoutHead('\t', slash); }
    WithoutHead('/', tab);
  }

  lemma TwoSlashes(host: string)
    ensures ['/'] + (['/'] + host) == ['/', '/'] + host
  {
  }

  lemma TabWithSlashes(scheme: string, host: string)
    requires IsScheme(scheme) && Lower(scheme) == scheme && NoneOf(host, EndsNetloc) && NoneOf(host, IsUnsafe)
    ensures SplitUrl(TabText(scheme, host)).netloc == host
  {
    hide Clean, SplitScheme, Cut, Lower, IsScheme, TabText;
    TabRemoved(scheme, host);
    var url := ['/', '/'] + host;
    SplitsScheme(scheme, url);
    assert url[2..] == host;
    AuthorityPath(url);
    UntilIs(host, EndsNetloc, |host|);
    assert host[..|host|] == host;
  }

  lemma TabWithout(scheme: string, host: string)
    requires IsScheme(scheme) && NoneOf(host, IsUnsafe)
    ensures SplitUrl("//" + TabText(scheme, host)).netloc == scheme + [':']
  {
    hide Clean, Cut, TabText, SplitScheme;
    var rest := ['/', '/'] + host;
    TabRemoved(scheme, host);
    CleanedAsHost(TabText(scheme, host));
    var url := ['/', '/'] + (scheme + [':']) + rest;
    assert url == ['/', '/'] + (scheme + [':'] + rest);
    assert NoneOf(scheme + [':'], EndsNetloc);
    NoScheme(url);
    hide IsScheme;
    SplitsNetloc(scheme + [':'], rest);
  }

  lemma TabHidesTheAuthority(scheme: string, host: string)
    requires IsScheme(scheme) && Lower(scheme) == scheme && NoneOf(host, EndsNetloc) && NoneOf(host, IsUnsafe)
    ensures SplitTarget(TabText(scheme, host) + "?//").netloc == host
    ensures SplitTarget(TabText(scheme, host)).netloc == scheme + [':']
  {
    TabSlashes(scheme, host);
    TabWithSlashes(scheme, host);
    TabWithout(scheme, host);
    hide HasSlashes, SplitUrl, TabText, IsScheme, Lower;
    TailIsDropped(TabText(scheme, host), "?//");
  }

  lemma TabHasNoCredentials(scheme: string, host: string, tail: string)
    requires IsScheme(scheme)
    ensures !HasCredentials(TabText(scheme, host) + tail)
  {
    var target, n := TabText(scheme, host) + tail, |scheme|;
    forall i | 0 <= i < n ensures !IsColon(target[i]) {
      assert target[i] == scheme[i] && scheme[i] in scheme;
    }
    assert target[n] == ':' && target[n + 2] == '\t';
    UntilIs(target, IsColon, n);
    hide HasUserInfo, IsScheme;
  }

  function OnlyTarget(target: string): Record {
    map[TARGET := Str(target)]
  }

  lemma OnlyTargetIsAccepted(target: string, rules: Rules)
    requires !HasCredentials(target) && rules.netlocOk(SplitTarget(target).netloc) && SplitTarget(target).netloc != ""
    ensures ExportRow(OnlyTarget(target), false, rules).Accepted?
    ensures TargetText(OnlyTarget(target), rules) == target
  {
    hide HasCredentials, SplitTarget, Redacted, Columns;
    assert !AnyFieldRefused(OnlyTarget(target), rules);
  }

  /** One text before the tail, read with two hosts because a tab hides its `//`: both rows are
      accepted, they differ only in the query, and they are exported differently. */
  lemma TabChangesTheExport(scheme: string, host: string, rules: Rules)
    requires IsScheme(scheme) && Lower(scheme) == scheme
    requires host != "" && NoneOf(host, EndsNetloc) && NoneOf(host, IsUnsafe)
    requires rules.netlocOk(host) && rules.netlocOk(scheme + [':'])
    ensures var base := TabText(scheme, host);
            var row, other := OnlyTarget(base + "?//"), OnlyTarget(base);
            && ExportRow(row, false, rules).Accepted? && ExportRow(other, false, rules).Accepted?
            && ExportRow(row, false, rules) != ExportRow(other, false, rules)
  {
    var base := TabText(scheme, host);
    TabSlashes(scheme, host);
    TabHidesTheAuthority(scheme, host);
    TabHasNoCredentials(scheme, host, "?//");
    TabHasNoCredentials(scheme, host, "");
    assert base + "" == base;
    hide TabText, HasCredentials, SplitTarget, HasSlashes, ExportRow, TargetText, IsScheme, Lower;
    OnlyTargetIsAccepted(base + "?//", rules);
    OnlyTargetIsAccepted(base, rules);
    SameColumns(base + "?//", base);
    DroppedPartsDoNotMatter(OnlyTarget(base + "?//"), OnlyTarget(base), base, "?//", "", rules);
  }

  lemma SameColumns(one: string, two: string)
    ensures SameOtherColumns(OnlyTarget(one), OnlyTarget(two))
  {
    hide FIELDS;
  }
}
