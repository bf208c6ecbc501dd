/** The checks of libs/contracts/validation.py on nested data: the search for JSON in
    markdown, and the redaction of data that is to be logged. */
module Validation {
  import opened Wrappers
  import opened Regex
  import opened Patterns

  /** Nested data.  A dictionary is its entries in order; `Other` is a number, a Boolean
      or null. */
  datatype Json =
    | Str(text: string)
    | Obj(entries: seq<Entry>)
    | Arr(items: seq<Json>)
    | Other(value: int)

  datatype Entry = Entry(key: string, value: Json)

  datatype Segment = Key(key: string) | Index(index: nat)

  type Path = seq<Segment>

  /** `node` stands at `path` in `t`. */
  predicate Reaches(t: Json, path: Path, node: Json)
    decreases |path|
  {
    if |path| == 0 then
      t == node
    else
      match path[0]
      case Key(k) =>
        t.Obj? && exists i | 0 <= i < |t.entries| :: t.entries[i].key == k && Reaches(t.entries[i].value, path[1..], node)
      case Index(i) =>
        t.Arr? && i < |t.items| && Reaches(t.items[i], path[1..], node)
  }

  /** The branches that the checks of fields, of dictionaries and of lists share: where the
      exception, if any, says that the markdown is. */
  function CheckValue(u: Unicode, v: Json, path: Path): Option<Path>
    decreases v, 1, 0
  {
    match v
    case Str(text) => if ContainsMarkdownJson(u, text) then Some(path) else None
    case Obj(_) => CheckDict(u, v, 0, path)
    case Arr(_) => CheckList(u, v, 0, path)
    case Other(_) => None
  }

  function CheckDict(u: Unicode, d: Json, i: nat, path: Path): Option<Path>
    requires d.Obj? && i <= |d.entries|
    decreases d, 0, |d.entries| - i
  {
    if i == |d.entries| then
      None
    else
      var found := CheckValue(u, d.entries[i].value, path + [Key(d.entries[i].key)]);
      if found.Some? then found else CheckDict(u, d, i + 1, path)
  }

  function CheckList(u: Unicode, l: Json, i: nat, path: Path): Option<Path>
    requires l.Arr? && i <= |l.items|
    decreases l, 0, |l.items| - i
  {
    if i == |l.items| then
      None
    else
      var found := CheckValue(u, l.items[i], path + [Index(i)]);
      if found.Some? then found else CheckList(u, l, i + 1, path)
  }

  /** No string in `t`, however deep, has JSON in markdown. */
  ghost predicate Clean(u: Unicode, t: Json) {
    forall path, text | Reaches(t, path, Str(text)) :: !ContainsMarkdownJson(u, text)
  }

  /** At `path` in `t` there is JSON in markdown, and nothing before it, in the order of
      entries and items, has any. */
  ghost predicate IsFirst(u: Unicode, t: Json, path: Path)
    decreases |path|
  {
    if |path| == 0 then
      t.Str? && ContainsMarkdownJson(u, t.text)
    else
      match path[0]
      case Key(k) =>
        t.Obj? && exists i | 0 <= i < |t.entries| ::
          && t.entries[i].key == k && IsFirst(u, t.entries[i].value, path[1..])
          && forall j | 0 <= j < i :: Clean(u, t.entries[j].value)
      case Index(i) =>
        && t.Arr? && i < |t.items| && IsFirst(u, t.items[i], path[1..])
        && forall j | 0 <= j < i :: Clean(u, t.items[j])
  }

  /** What a check of `t` at `path` found is right: nothing if `t` is clean, and otherwise
      the first place. */
  ghost predicate FindsFirst(u: Unicode, t: Json, path: Path, found: Option<Path>) {
    match found
    case None => Clean(u, t)
    case Some(p) => |path| <= |p| && path == p[..|path|] && IsFirst(u, t, p[|path|..])
  }

  /** The recursive checks raise exactly when some string leaf of the tree has JSON in
      markdown, and then name the first such leaf. */
  lemma {:induction false} CheckFindsFirst(u: Unicode, v: Json, path: Path)
    ensures FindsFirst(u, v, path, CheckValue(u, v, path))
    decreases v, 1, 0
  {
    match v
    case Str(text) =>
      assert Reaches(v, [], Str(text));
    case Obj(_) => DictFindsFirst(u, v, 0, path);
    case Arr(_) => ListFindsFirst(u, v, 0, path);
    case Other(_) =>
  }

  lemma {:induction false} DictFindsFirst(u: Unicode, d: Json, i: nat, path: Path)
    requires d.Obj? && i <= |d.entries|
    requires forall j | 0 <= j < i :: Clean(u, d.entries[j].value)
    ensures FindsFirst(u, d, path, CheckDict(u, d, i, path))
    decreases d, 0, |d.entries| - i
  {
    if i == |d.entries| {
      DictIsClean(u, d);
    } else {
      var e := d.entries[i];
      CheckFindsFirst(u, e.value, path + [Key(e.key)]);
      var found := CheckValue(u, e.value, path + [Key(e.key)]);
      if found.Some? {
        var rest := found.value[|path|..];
        assert rest[0] == Key(e.key) && rest[1..] == found.value[|path| + 1..];
        assert IsFirst(u, d, rest);
      } else {
        DictFindsFirst(u, d, i + 1, path);
      }
    }
  }

  lemma DictIsClean(u: Unicode, d: Json)
    requires d.Obj? && forall j | 0 <= j < |d.entries| :: Clean(u, d.entries[j].value)
    ensures Clean(u, d)
  {
    forall p: Path, text | Reaches(d, p, Str(text)) ensures !ContainsMarkdownJson(u, text) {
      var j :| 0 <= j < |d.entries| && Reaches(d.entries[j].value, p[1..], Str(text));
      assert Clean(u, d.entries[j].value);
    }
  }

  lemma {:induction false} ListFindsFirst(u: Unicode, l: Json, i: nat, path: Path)
    requires l.Arr? && i <= |l.items|
    requires forall j | 0 <= j < i :: Clean(u, l.items[j])
    ensures FindsFirst(u, l, path, CheckList(u, l, i, path))
    decreases l, 0, |l.items| - i
  {
    if i == |l.items| {
      ListIsClean(u, l);
    } else {
      CheckFindsFirst(u, l.items[i], path + [Index(i)]);
      var found := CheckValue(u, l.items[i], path + [Index(i)]);
      if found.Some? {
        var rest := found.value[|path|..];
        assert rest[0] == Index(i) && rest[1..] == found.value[|path| + 1..];
        assert IsFirst(u, l, rest);
      } else {
        ListFindsFirst(u, l, i + 1, path);
      }
    }
  }

  lemma ListIsClean(u: Unicode, l: Json)
    requires l.Arr? && forall j | 0 <= j < |l.items| :: Clean(u, l.items[j])
    ensures Clean(u, l)
  {
    forall p: Path, text | Reaches(l, p, Str(text)) ensures !ContainsMarkdownJson(u, text) {
      assert Clean(u, l.items[p[0].index]) && Reaches(l.items[p[0].index], p[1..], Str(text));
    }
  }

  /** The first offending place is an offending leaf of the tree, so no clean tree is refused. */
  lemma {:induction false} FirstIsALeaf(u: Unicode, t: Json, path: Path) returns (text: string)
    requires IsFirst(u, t, path)
    ensures Reaches(t, path, Str(text)) && ContainsMarkdownJson(u, text)
    decreases |path|
  {
    if |path| == 0 {
      text := t.text;
    } else if path[0].Key? {
      var i :| 0 <= i < |t.entries| && t.entries[i].key == path[0].key && IsFirst(u, t.entries[i].value, path[1..]);
      text := FirstIsALeaf(u, t.entries[i].value, path[1..]);
    } else {
      text := FirstIsALeaf(u, t.items[path[0].index], path[1..]);
    }
  }

  lemma RaisesIffSomeLeafOffends(u: Unicode, v: Json, path: Path)
    ensures CheckValue(u, v, path) == None <==> Clean(u, v)
  {
    CheckFindsFirst(u, v, path);
    var found := CheckValue(u, v, path);
    if found.Some? {
      var text := FirstIsALeaf(u, v, found.value[|path|..]);
    }
  }

  const REDACTED: string := "[REDACTED]"

  /** Which keys are sensitive, given how Python lowers a string, and what is personal. */
  datatype Policy = Policy(unicode: Unicode, lower: string -> string, sensitive: seq<string>)

  predicate Occurs(part: string, s: string) {
    exists i | 0 <= i <= |s| :: part <= s[i..]
  }

  predicate IsSensitive(c: Policy, key: string) {
    exists k | 0 <= k < |c.sensitive| :: Occurs(c.sensitive[k], c.lower(key))
  }

  lemma OccursIff(part: string, s: string)
    ensures Occurs(part, s) <==> exists a, b :: s == a + part + b
  {
    if Occurs(part, s) {
      var i :| 0 <= i <= |s| && part <= s[i..];
      assert s == s[..i] + part + s[i..][|part|..];
    }
    if a, b :| s == a + part + b {
      assert s[|a|..] == part + b;
    }
  }

  /** A key is sensitive if and only if a sensitive word stands anywhere in its lowered form. */
  lemma IsSensitiveIff(c: Policy, key: string)
    ensures IsSensitive(c, key) <==>
              exists k, a, b | 0 <= k < |c.sensitive| :: c.lower(key) == a + c.sensitive[k] + b
  {
    hide Occurs;
    forall k | 0 <= k < |c.sensitive|
      ensures Occurs(c.sensitive[k], c.lower(key)) <==> exists a, b :: c.lower(key) == a + c.sensitive[k] + b
    {
      OccursIff(c.sensitive[k], c.lower(key));
    }
  }

  function SanitizeText(c: Policy, text: string): string {
    if ContainsPii(c.unicode, text) then REDACTED else text
  }

  function Sanitize(c: Policy, t: Json): Json
    decreases t
  {
    match t
    case Obj(entries) =>
      Obj(seq(|entries|, i requires 0 <= i < |entries| => SanitizeEntry(c, entries[i])))
    case Arr(items) =>
      Arr(seq(|items|, i requires 0 <= i < |items| => Sanitize(c, items[i])))
    case Str(text) => Str(SanitizeText(c, text))
    case Other(_) => t
  }

  function SanitizeEntry(c: Policy, e: Entry): Entry
    decreases e
  {
    Entry(e.key, if IsSensitive(c, e.key) then Str(REDACTED) else Sanitize(c, e.value))
  }

  lemma SanitizedChildren(c: Policy, t: Json)
    ensures var s := Sanitize(c, t);
      match t
      case Obj(es) =>
        && s.Obj? && |s.entries| == |es|
        && forall i | 0 <= i < |es| ::
          && s.entries[i].key == es[i].key
          && s.entries[i].value == if IsSensitive(c, es[i].key) then Str(REDACTED) else Sanitize(c, es[i].value)
      case Arr(ts) =>
        s.Arr? && |s.items| == |ts| && forall i | 0 <= i < |ts| :: s.items[i] == Sanitize(c, ts[i])
      case _ => !s.Obj? && !s.Arr?
  {
    if t.Obj? {
      forall i | 0 <= i < |t.entries| ensures Sanitize(c, t).entries[i] == SanitizeEntry(c, t.entries[i]) {
      }
    }
  }

  /** No key on the path is sensitive. */
  predicate IsOpen(c: Policy, path: Path) {
    forall k | 0 <= k < |path| && path[k].Key? :: !IsSensitive(c, path[k].key)
  }

  lemma OpenTail(c: Policy, path: Path)
    requires |path| > 0
    ensures IsOpen(c, path) <==> IsOpen(c, path[1..]) && (path[0].Key? ==> !IsSensitive(c, path[0].key))
  {
    var rest := path[1..];
    assert forall k | 1 <= k < |path| :: path[k] == rest[k - 1];
  }

  /** Outside redacted parts nothing is lost. */
  lemma {:induction false} OpenPathsStay(c: Policy, t: Json, path: Path, n: Json)
    requires IsOpen(c, path) && Reaches(t, path, n)
    ensures Reaches(Sanitize(c, t), path, Sanitize(c, n))
    decreases |path|
  {
    if |path| > 0 {
      var s, rest := Sanitize(c, t), path[1..];
      SanitizedChildren(c, t);
      OpenTail(c, path);
      hide Sanitize, IsOpen, IsSensitive;
      if path[0].Key? {
        var i :| 0 <= i < |t.entries| && t.entries[i].key == path[0].key && Reaches(t.entries[i].value, rest, n);
        OpenPathsStay(c, t.entries[i].value, rest, n);
        assert s.entries[i].key == path[0].key;
      } else {
        OpenPathsStay(c, t.items[path[0].index], rest, n);
      }
    }
  }

  /** Outside redacted parts nothing is made up. */
  lemma {:induction false} OpenPathsCameFrom(c: Policy, t: Json, path: Path, node: Json) returns (n: Json)
    requires IsOpen(c, path) && Reaches(Sanitize(c, t), path, node)
    ensures Reaches(t, path, n) && node == Sanitize(c, n)
    decreases |path|
  {
    if |path| == 0 {
      n := t;
    } else {
      var s, rest := Sanitize(c, t), path[1..];
      SanitizedChildren(c, t);
      OpenTail(c, path);
      hide Sanitize, IsOpen, IsSensitive;
      if path[0].Key? {
        var i :| 0 <= i < |s.entries| && s.entries[i].key == path[0].key && Reaches(s.entries[i].value, rest, node);
        n := OpenPathsCameFrom(c, t.entries[i].value, rest, node);
      } else {
        n := OpenPathsCameFrom(c, t.items[path[0].index], rest, node);
      }
    }
  }

  /** Outside redacted parts nothing moves: at an open path of the result there is the
      sanitized form of what is there in the data. */
  lemma OpenPathsAreKept(c: Policy, t: Json, path: Path, node: Json)
    requires IsOpen(c, path)
    ensures Reaches(Sanitize(c, t), path, node) <==> exists n :: Reaches(t, path, n) && node == Sanitize(c, n)
  {
    if Reaches(Sanitize(c, t), path, node) {
      var n := OpenPathsCameFrom(c, t, path, node);
    }
    if n :| Reaches(t, path, n) && node == Sanitize(c, n) {
      OpenPathsStay(c, t, path, n);
    }
  }

  /** Under a sensitive key the result holds the marker and nothing else. */
  lemma {:induction false} SensitiveKeysHoldTheMarker(c: Policy, t: Json, path: Path, node: Json)
    requires Reaches(Sanitize(c, t), path, node) && !IsOpen(c, path)
    ensures path[|path| - 1].Key? && IsSensitive(c, path[|path| - 1].key)
    ensures IsOpen(c, path[..|path| - 1]) && node == Str(REDACTED)
    decreases |path|
  {
    var s, rest := Sanitize(c, t), path[1..];
    SanitizedChildren(c, t);
    OpenTail(c, path);
    if |rest| > 0 {
      assert rest[..|rest| - 1] == path[..|path| - 1][1..] && rest[|rest| - 1] == path[|path| - 1];
      OpenTail(c, path[..|path| - 1]);
    }
    hide Sanitize, IsSensitive;
    if path[0].Key? {
      var i :| 0 <= i < |s.entries| && s.entries[i].key == path[0].key && Reaches(s.entries[i].value, rest, node);
      if IsSensitive(c, path[0].key) {
        assert s.entries[i].value == Str(REDACTED) && |rest| == 0;
      } else {
        SensitiveKeysHoldTheMarker(c, t.entries[i].value, rest, node);
      }
    } else {
      SensitiveKeysHoldTheMarker(c, t.items[path[0].index], rest, node);
    }
  }

  /** Under a key that has a sensitive word anywhere in its lowered form, whatever the data
      hold there, the result holds the marker and nothing else. */
  lemma WordsInKeysRedact(c: Policy, t: Json, path: Path, key: string, k: nat, a: string, b: string)
    requires k < |c.sensitive| && c.lower(key) == a + c.sensitive[k] + b && IsOpen(c, path)
    ensures forall n | Reaches(t, path + [Key(key)], n) :: Reaches(Sanitize(c, t), path + [Key(key)], Str(REDACTED))
    ensures forall node | Reaches(Sanitize(c, t), path + [Key(key)], node) :: node == Str(REDACTED)
  {
    IsSensitiveIff(c, key);
    hide IsSensitive, Sanitize, Reaches;
    var longer := path + [Key(key)];
    assert longer[|path|] == Key(key);
    forall n | Reaches(t, longer, n) ensures Reaches(Sanitize(c, t), longer, Str(REDACTED)) {
      SensitiveValuesGo(c, t, path, key, n);
    }
    forall node | Reaches(Sanitize(c, t), longer, node) ensures node == Str(REDACTED) {
      SensitiveKeysHoldTheMarker(c, t, longer, node);
    }
  }

  lemma {:induction false} SensitiveValuesGo(c: Policy, t: Json, path: Path, key: string, n: Json)
    requires IsOpen(c, path) && IsSensitive(c, key) && Reaches(t, path + [Key(key)], n)
    ensures Reaches(Sanitize(c, t), path + [Key(key)], Str(REDACTED))
    decreases |path|
  {
    var s, longer := Sanitize(c, t), path + [Key(key)];
    SanitizedChildren(c, t);
    hide Sanitize, IsOpen, IsSensitive;
    if |path| == 0 {
      var i :| 0 <= i < |t.entries| && t.entries[i].key == key && Reaches(t.entries[i].value, longer[1..], n);
      assert s.entries[i].key == key && Reaches(s.entries[i].value, longer[1..], Str(REDACTED));
    } else {
      var rest := path[1..];
      assert longer[0] == path[0] && longer[1..] == rest + [Key(key)];
      OpenTail(c, path);
      if path[0].Key? {
        var i :| 0 <= i < |t.entries| && t.entries[i].key == path[0].key
              && Reaches(t.entries[i].value, longer[1..], n);
        SensitiveValuesGo(c, t.entries[i].value, rest, key, n);
        assert s.entries[i].key == path[0].key;
      } else {
        SensitiveValuesGo(c, t.items[path[0].index], rest, key, n);
      }
    }
  }

  /** And under any other open key there is the sanitized form of a value of the data. */
  lemma OtherKeysAreKept(c: Policy, t: Json, path: Path, key: string, node: Json)
    requires IsOpen(c, path) && Reaches(Sanitize(c, t), path + [Key(key)], node)
    requires forall k, a, b | 0 <= k < |c.sensitive| :: c.lower(key) != a + c.sensitive[k] + b
    ensures exists n :: Reaches(t, path + [Key(key)], n) && node == Sanitize(c, n)
  {
    var longer := path + [Key(key)];
    IsSensitiveIff(c, key);
    assert IsOpen(c, longer);
    OpenPathsAreKept(c, t, longer, node);
  }

  /** No string of the result, at any depth, has personal data. */
  lemma NoPiiIsLogged(c: Policy, t: Json, path: Path, text: string)
    requires c.unicode.IsPython() && Reaches(Sanitize(c, t), path, Str(text))
    ensures !ContainsPii(c.unicode, text)
  {
    RedactedIsClean(c.unicode);
    if IsOpen(c, path) {
      OpenPathsAreKept(c, t, path, Str(text));
    } else {
      SensitiveKeysHoldTheMarker(c, t, path, Str(text));
    }
  }

  /** Keys are not looked at: personal data in a key is logged. */
  lemma KeysAreLogged(c: Policy)
    requires c.unicode.IsPython() && !IsSensitive(c, "123-45-6789")
    ensures ContainsPii(c.unicode, "123-45-6789")
    ensures var t := Obj([Entry("123-45-6789", Other(0))]); Sanitize(c, t) == t
  {
    var key := "123-45-6789";
    hide ContainsPii, IsSensitive;
    NumberIsPii(c.unicode);
    var t := Obj([Entry(key, Other(0))]);
    SanitizedChildren(c, t);
    assert Sanitize(c, t).entries == t.entries;
  }

  /** No key of `t`, at any depth, has personal data ... */
  predicate KeysClean(c: Policy, t: Json)
    decreases t
  {
    match t
    case Obj(es) => forall i | 0 <= i < |es| :: !ContainsPii(c.unicode, es[i].key) && KeysClean(c, es[i].value)
    case Arr(ts) => forall i | 0 <= i < |ts| :: KeysClean(c, ts[i])
    case _ => true
  }

  /** ... or none that is not below a sensitive key. */
  predicate OpenKeysClean(c: Policy, t: Json)
    decreases t
  {
    match t
    case Obj(es) =>
      forall i | 0 <= i < |es| ::
        && !ContainsPii(c.unicode, es[i].key)
        && (IsSensitive(c, es[i].key) || OpenKeysClean(c, es[i].value))
    case Arr(ts) => forall i | 0 <= i < |ts| :: OpenKeysClean(c, ts[i])
    case _ => true
  }

  /** The keys of the result are free of personal data if and only if the keys of the data
      are, those below sensitive keys aside. */
  lemma {:induction false} KeysAreCleanIff(c: Policy, t: Json)
    ensures KeysClean(c, Sanitize(c, t)) <==> OpenKeysClean(c, t)
    decreases t
  {
    hide ContainsPii, IsSensitive, Sanitize;
    SanitizedChildren(c, t);
    var s := Sanitize(c, t);
    match t
    case Obj(es) =>
      forall i | 0 <= i < |es|
        ensures KeysClean(c, s.entries[i].value) == (IsSensitive(c, es[i].key) || OpenKeysClean(c, es[i].value))
      {
        KeysAreCleanIff(c, es[i].value);
      }
      assert forall i | 0 <= i < |es| :: s.entries[i].key == es[i].key;
    case Arr(ts) =>
      forall i | 0 <= i < |ts| ensures KeysClean(c, s.items[i]) == OpenKeysClean(c, ts[i]) {
        KeysAreCleanIff(c, ts[i]);
      }
    case _ =>
  }

  /** Neither a string nor a key of `t` has personal data. */
  ghost predicate ShowsNoPii(c: Policy, t: Json) {
    && (forall path, text | Reaches(t, path, Str(text)) :: !ContainsPii(c.unicode, text))
    && KeysClean(c, t)
  }

  /** Exactly when nothing personal is logged at all. */
  lemma NothingPersonalIsLoggedIff(c: Policy, t: Json)
    requires c.unicode.IsPython()
    ensures ShowsNoPii(c, Sanitize(c, t)) <==> OpenKeysClean(c, t)
  {
    hide ContainsPii, Sanitize, Reaches, KeysClean, OpenKeysClean;
    KeysAreCleanIff(c, t);
    forall path, text | Reaches(Sanitize(c, t), path, Str(text)) ensures !ContainsPii(c.unicode, text) {
      NoPiiIsLogged(c, t, path, text);
    }
  }

  lemma {:induction false} Idempotent(c: Policy, t: Json)
    requires c.unicode.IsPython()
    ensures Sanitize(c, Sanitize(c, t)) == Sanitize(c, t)
    decreases t
  {
    var s := Sanitize(c, t);
    SanitizedChildren(c, t);
    SanitizedChildren(c, s);
    match t
    case Obj(entries) =>
      forall i | 0 <= i < |entries| ensures Sanitize(c, s).entries[i] == s.entries[i] {
        if !IsSensitive(c, entries[i].key) {
          Idempotent(c, entries[i].value);
        }
      }
      assert Sanitize(c, s).entries == s.entries;
    case Arr(items) =>
      forall i | 0 <= i < |items| ensures Sanitize(c, s.items[i]) == s.items[i] {
        Idempotent(c, items[i]);
      }
      assert Sanitize(c, s).items == s.items;
    case Str(_) =>
      RedactedIsClean(c.unicode);
    case Other(_) =>
  }

  /** The text does not show in a log: it is personal, or it is the marker itself. */
  predicate IsHidden(c: Policy, text: string) {
    ContainsPii(c.unicode, text) || text == REDACTED
  }

  /** `t` and `u` differ at most below sensitive keys and in hidden strings. */
  predicate Alike(c: Policy, t: Json, u: Json)
    decreases t
  {
    match t
    case Obj(es) =>
      && u.Obj? && |u.entries| == |es|
      && forall i | 0 <= i < |es| ::
        && es[i].key == u.entries[i].key
        && (IsSensitive(c, es[i].key) || Alike(c, es[i].value, u.entries[i].value))
    case Arr(ts) =>
      u.Arr? && |u.items| == |ts| && forall i | 0 <= i < |ts| :: Alike(c, ts[i], u.items[i])
    case Str(x) =>
      u.Str? && (x == u.text || (IsHidden(c, x) && IsHidden(c, u.text)))
    case Other(_) => t == u
  }

  /** A log tells two trees apart exactly when they differ outside what is sensitive. */
  lemma {:induction false} LogsTellApartIff(c: Policy, t: Json, u: Json)
    ensures Sanitize(c, t) == Sanitize(c, u) <==> Alike(c, t, u)
    decreases t
  {
    var s, r := Sanitize(c, t), Sanitize(c, u);
    SanitizedChildren(c, t);
    SanitizedChildren(c, u);
    match t
    case Obj(es) =>
      if u.Obj? && |u.entries| == |es| {
        forall i | 0 <= i < |es| {
          LogsTellApartIff(c, es[i].value, u.entries[i].value);
        }
        assert Alike(c, t, u) ==> s.entries == r.entries;
      }
    case Arr(ts) =>
      if u.Arr? && |u.items| == |ts| {
        forall i | 0 <= i < |ts| {
          LogsTellApartIff(c, ts[i], u.items[i]);
        }
        assert Alike(c, t, u) ==> s.items == r.items;
      }
    case Str(_) =>
    case Other(_) =>
  }
}
