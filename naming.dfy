/** File names for downloaded resources (`format_name`): the resource's
    own name is cut out of its url, the user's template has every `{key}` or
    `{key:argument}` replaced by a field of the resource, and characters
    that file systems refuse are swapped for their full-width forms. */
module Naming {
  import opened Wrappers
  import opened Text
  import opened Ordering
  import opened Feed

  // ---- safeify ----

  /** The illegal characters and their replacements, in the order the
      replacements are applied. */
  const Template: seq<(char, char)> := [
    ('\\', '\U{FF3C}'), ('/', '\U{FF0F}'), (':', '\U{FF1A}'), ('*', '\U{FF0A}'),
    ('?', '\U{FF1F}'), ('"', '\U{FF02}'), ('<', '\U{FF1C}'), ('>', '\U{FF1E}'), ('|', '\U{FF5C}')
  ]

  predicate IsIllegal(c: char) {
    c == '\\' || c == '/' || c == ':' || c == '*' || c == '?' || c == '"' || c == '<' || c == '>' || c == '|'
  }

  /** The full-width form of a printable ASCII character. */
  function FullWidth(c: char): char
    requires '!' <= c <= '~'
  {
    (c as int + 0xFEE0) as char
  }

  /** What safeify makes of one character. */
  function SafeChar(c: char): (r: char)
    ensures !IsIllegal(r)
    ensures IsIllegal(c) ==> r != c
    ensures !IsIllegal(c) ==> r == c
  {
    if IsIllegal(c) then FullWidth(c) else c
  }

  /** The name with every illegal character replaced. */
  function Safe(s: string): (r: string)
    ensures |r| == |s|
    ensures forall k :: 0 <= k < |s| ==> r[k] == SafeChar(s[k])
  {
    if s == [] then [] else [SafeChar(s[0])] + Safe(s[1..])
  }

  /** `s.replace(a, b)` for single characters. */
  function ReplaceChar(s: string, a: char, b: char): (r: string)
    ensures |r| == |s|
    ensures forall k :: 0 <= k < |s| ==> r[k] == if s[k] == a then b else s[k]
  {
    if s == [] then [] else [if s[0] == a then b else s[0]] + ReplaceChar(s[1..], a, b)
  }

  lemma TemplateFacts()
    ensures |Template| == 9
    ensures forall j :: 0 <= j < 9 ==> IsIllegal(Template[j].0)
    ensures forall j :: 0 <= j < 9 ==> Template[j].1 == FullWidth(Template[j].0)
    ensures forall c :: IsIllegal(c) ==> exists j :: 0 <= j < 9 && Template[j].0 == c
    ensures forall i, j :: 0 <= i < j < 9 ==> Template[i].0 != Template[j].0
  {
    forall c | IsIllegal(c)
      ensures exists j :: 0 <= j < 9 && Template[j].0 == c
    {
      if c == '\\' { assert Template[0].0 == c; }
      else if c == '/' { assert Template[1].0 == c; }
      else if c == ':' { assert Template[2].0 == c; }
      else if c == '*' { assert Template[3].0 == c; }
      else if c == '?' { assert Template[4].0 == c; }
      else if c == '"' { assert Template[5].0 == c; }
      else if c == '<' { assert Template[6].0 == c; }
      else if c == '>' { assert Template[7].0 == c; }
      else { assert Template[8].0 == c; }
    }
  }

  /** A character after the replacements of the first `i` template entries. */
  function Partial(i: nat, c: char): char
    requires i <= |Template|
  {
    if exists j :: 0 <= j < i && Template[j].0 == c then SafeChar(c) else c
  }

  /** `safeify`: one `str.replace` per template entry. */
  method Safeify(name: string) returns (r: string)
    ensures r == Safe(name)
  {
    TemplateFacts();
    r := name;
    for i := 0 to |Template|
      invariant |r| == |name|
      invariant forall k :: 0 <= k < |r| ==> r[k] == Partial(i, name[k])
    {
      var (illegal, wide) := Template[i];
      var before := r;
      r := ReplaceChar(r, illegal, wide);
      forall k | 0 <= k < |r|
        ensures r[k] == Partial(i + 1, name[k])
      {
        var c := name[k];
        if exists j :: 0 <= j < i && Template[j].0 == c {
          var j :| 0 <= j < i && Template[j].0 == c;
          assert before[k] == SafeChar(c) && before[k] != illegal;
        } else if c == illegal {
          assert before[k] == c;
        } else {
          assert before[k] == c;
        }
      }
    }
    assert forall k :: 0 <= k < |r| ==> r[k] == SafeChar(name[k]);
  }

  /** A safe name has no illegal character, and making it safe again
      changes nothing. */
  lemma SafeIdempotent(s: string)
    ensures forall k :: 0 <= k < |Safe(s)| ==> !IsIllegal(Safe(s)[k])
    ensures Safe(Safe(s)) == Safe(s)
  {
  }

  /** A name without illegal characters is left alone. */
  lemma SafeClean(s: string)
    requires forall k :: 0 <= k < |s| ==> !IsIllegal(s[k])
    ensures Safe(s) == s
  {
  }

  // ---- the resource name in its url ----

  /** The length of the longest prefix of `s` without whitespace. */
  function NonSpaceRun(s: string): (n: nat)
    ensures n <= |s| && NoSpace(s[..n]) && (n == |s| || IsSpace(s[n]))
  {
    if s == [] || IsSpace(s[0]) then 0
    else
      var n := 1 + NonSpaceRun(s[1..]);
      assert forall k :: 1 <= k < n ==> s[..n][k] == s[1..][..n - 1][k - 1];
      n
  }

  /** The last index `j` with `1 <= j < n` and `s[j] == '/'`. */
  function LastSlash(s: string, n: nat): (j: Option<nat>)
    requires n <= |s|
    ensures j.Some? ==> 1 <= j.value < n && s[j.value] == '/'
                        && forall k :: j.value < k < n ==> s[k] != '/'
    ensures j.None? ==> forall k :: 1 <= k < n ==> s[k] != '/'
  {
    if n <= 1 then None
    else if s[n - 1] == '/' then Some(n - 1)
    else LastSlash(s, n - 1)
  }

  /** `re.sub(r'^\S+/', '', url)`: drop the longest non-blank prefix that
      ends in a slash and has at least one character before it. */
  function StripDirectory(url: string): (r: string)
    ensures |r| <= |url| && r == url[|url| - |r|..]
  {
    match LastSlash(url, NonSpaceRun(url))
    case Some(j) => url[j + 1..]
    case None => url
  }

  /** Where `$` matches last: before a final newline, or at the end. */
  function EndAnchor(s: string): nat {
    if |s| > 0 && s[|s| - 1] == '\n' then |s| - 1 else |s|
  }

  /** `\?\S+$` matches at `i`. */
  predicate QueryAt(s: string, i: nat) {
    i + 1 < EndAnchor(s) && s[i] == '?' && forall k :: i < k < EndAnchor(s) ==> !IsSpace(s[k])
  }

  /** The leftmost match of `\?\S+$` at or after `i`. */
  function FirstQuery(s: string, i: nat): (q: Option<nat>)
    ensures q.Some? ==> i <= q.value && QueryAt(s, q.value)
                        && forall k :: i <= k < q.value ==> !QueryAt(s, k)
    ensures q.None? ==> forall k :: i <= k ==> !QueryAt(s, k)
    decreases |s| - i
  {
    if i >= |s| then None
    else if QueryAt(s, i) then Some(i)
    else FirstQuery(s, i + 1)
  }

  /** `re.sub(r'\?\S+$', '', name)`: drop a trailing query string. */
  function StripQuery(name: string): (r: string)
    ensures |r| <= |name|
  {
    match FirstQuery(name, 0)
    case Some(i) => name[..i] + name[EndAnchor(name)..]
    case None => name
  }

  /** The `name` field: the url without directories and query. */
  function NameOf(url: string): (name: string)
    ensures |name| <= |url|
  {
    StripQuery(StripDirectory(url))
  }

  /** Two blank-free texts joined by a non-blank character. */
  lemma NoSpaceJoin(a: string, c: char, b: string)
    requires NoSpace(a) && NoSpace(b) && !IsSpace(c)
    ensures NoSpace(a + [c] + b)
  {
    var s := a + [c] + b;
    forall k | 0 <= k < |s| ensures !IsSpace(s[k]) {
      if k < |a| {
        assert s[k] == a[k];
      } else if k > |a| {
        assert s[k] == b[k - |a| - 1];
      }
    }
  }

  /** For a text without blanks, the directory part ends at the last slash. */
  lemma StripDirectoryAfter(dir: string, tail: string)
    requires dir != [] && '/' !in tail && NoSpace(dir + "/" + tail)
    ensures StripDirectory(dir + "/" + tail) == tail
  {
    var u := dir + "/" + tail;
    assert NonSpaceRun(u) == |u| by {
      assert u[..|u|] == u;
    }
    assert u[|dir|] == '/';
    assert forall k :: |dir| < k < |u| ==> u[k] == tail[k - |dir| - 1];
    assert LastSlash(u, |u|) == Some(|dir|);
    assert u[|dir| + 1..] == tail;
  }

  /** A query without blanks at the end of a name without `?` is dropped. */
  lemma StripQueryAfter(file: string, query: string)
    requires NoSpace(query) && query != [] && '?' !in file
    ensures StripQuery(file + "?" + query) == file
  {
    var w := file + "?" + query;
    assert EndAnchor(w) == |w| by {
      assert w[|w| - 1] == query[|query| - 1];
    }
    assert QueryAt(w, |file|) by {
      forall k | |file| < k < |w| ensures !IsSpace(w[k]) {
        assert w[k] == query[k - |file| - 1];
      }
    }
    forall k | 0 <= k < |file| ensures !QueryAt(w, k) {
      assert w[k] == file[k];
    }
    assert w[..|file|] == file;
  }

  /** For a url without blanks, the name is what follows the last slash,
      up to the query. */
  lemma NameOfUrl(dir: string, file: string, query: string)
    requires NoSpace(dir) && NoSpace(file) && NoSpace(query)
    requires dir != [] && query != []
    requires '/' !in file && '/' !in query && '?' !in file
    ensures StripDirectory(dir + "/" + file) == file
    ensures NameOf(dir + "/" + file + "?" + query) == file
  {
    NoSpaceJoin(dir, '/', file);
    StripDirectoryAfter(dir, file);
    var tail := file + "?" + query;
    NoSpaceJoin(file, '?', query);
    assert '/' !in tail by {
      assert forall k :: |file| < k < |tail| ==> tail[k] == query[k - |file| - 1];
    }
    NoSpaceJoin(dir, '/', tail);
    StripDirectoryAfter(dir, tail);
    assert dir + "/" + tail == dir + "/" + file + "?" + query;
    StripQueryAfter(file, query);
  }

  // ---- substitution of `{...}` groups ----

  /** The position in `t` of the first `close`, provided no newline comes
      before it (what a lazy `.*?` followed by `close` finds). */
  function Closing(t: string, close: char): (k: Option<nat>)
    ensures k.Some? ==> k.value < |t| && t[k.value] == close
                        && forall j :: 0 <= j < k.value ==> t[j] != close && t[j] != '\n'
    ensures k.None? ==> forall j :: 0 <= j < |t| && t[j] == close ==> exists i :: 0 <= i < j && t[i] == '\n'
  {
    if t == [] then None
    else if t[0] == close then Some(0)
    else if t[0] == '\n' then None
    else
      match Closing(t[1..], close)
      case Some(k) => Some(k + 1)
      case None =>
        assert forall j :: 1 <= j < |t| ==> t[j] == t[1..][j - 1];
        None
  }

  /** The result of a text made of two parts: the first error wins,
      otherwise the two parts are concatenated. */
  function Then(head: Result<string>, tail: Result<string>): (r: Result<string>)
    ensures r.Ok? <==> head.Ok? && tail.Ok?
    ensures r.Ok? ==> r.value == head.value + tail.value
    ensures head.Err? ==> r == head
  {
    match head
    case Err(e) => Err(e)
    case Ok(h) =>
      match tail
      case Err(e) => Err(e)
      case Ok(t) => Ok(h + t)
  }

  /** `re.sub(open + '(.*?)' + close, repl, s)`: every group is replaced,
      left to right; the first replacement that raises aborts. */
  function Substitute(s: string, open: char, close: char, repl: string -> Result<string>): (r: Result<string>)
    ensures r.Err? ==> open in s
    ensures r.Err? ==> exists g :: repl(g) == r
    decreases |s|
  {
    if s == [] then Ok([])
    else if s[0] == open && Closing(s[1..], close).Some? then
      var j := Closing(s[1..], close).value;
      Then(repl(s[1..j + 1]), Substitute(s[j + 2..], open, close, repl))
    else
      Then(Ok([s[0]]), Substitute(s[1..], open, close, repl))
  }

  /** Text without an opening character is kept as it is. */
  lemma {:induction false} SubstitutePlain(s: string, open: char, close: char, repl: string -> Result<string>)
    requires open !in s
    ensures Substitute(s, open, close, repl) == Ok(s)
  {
    if s != [] {
      SubstitutePlain(s[1..], open, close, repl);
      assert [s[0]] + s[1..] == s;
    }
  }

  /** A text without an opening character before a group is kept, the group
      replaced, and the rest substituted in turn. */
  lemma {:induction false} SubstituteGroup(p: string, g: string, rest: string, open: char, close: char,
                                           repl: string -> Result<string>)
    requires open !in p && close !in g && '\n' !in g && open != close
    ensures Substitute(p + [open] + g + [close] + rest, open, close, repl)
      == Then(Ok(p), Then(repl(g), Substitute(rest, open, close, repl)))
    decreases |p|
  {
    var s := p + [open] + g + [close] + rest;
    var x := Then(repl(g), Substitute(rest, open, close, repl));
    if p == [] {
      assert s == [open] + g + [close] + rest;
      SubstituteAtGroup(g, rest, open, close, repl);
      if x.Ok? {
        assert p + x.value == x.value;
      }
    } else {
      var s' := p[1..] + [open] + g + [close] + rest;
      assert s == [p[0]] + s' && s[1..] == s';
      SubstituteGroup(p[1..], g, rest, open, close, repl);
      if x.Ok? {
        assert [p[0]] + (p[1..] + x.value) == p + x.value;
      }
    }
  }

  /** A group at the very start of the text. */
  lemma SubstituteAtGroup(g: string, rest: string, open: char, close: char, repl: string -> Result<string>)
    requires close !in g && '\n' !in g && open != close
    ensures Substitute([open] + g + [close] + rest, open, close, repl)
      == Then(repl(g), Substitute(rest, open, close, repl))
  {
    var s := [open] + g + [close] + rest;
    var t := s[1..];
    assert t == g + [close] + rest;
    ClosingAfter(g, close, rest);
    assert s[1..|g| + 1] == g;
    assert s[|g| + 2..] == rest;
  }

  lemma {:induction false} ClosingAfter(g: string, close: char, rest: string)
    requires close !in g && '\n' !in g
    ensures Closing(g + [close] + rest, close) == Some(|g|)
  {
    if g != [] {
      assert (g + [close] + rest)[1..] == g[1..] + [close] + rest;
      ClosingAfter(g[1..], close, rest);
    }
  }

  /** The HTML tags of a post's text, `re.sub(r'<.*?>', '', text)`. */
  function RemoveTags(text: string): string {
    match Substitute(text, '<', '>', _ => Ok(""))
    case Ok(t) => t
    case Err(_) => text
  }

  lemma RemoveTag(p: string, tag: string, rest: string)
    requires '<' !in p && '>' !in tag && '\n' !in tag
    ensures RemoveTags(p + "<" + tag + ">" + rest) == p + RemoveTags(rest)
  {
    var repl: string -> Result<string> := _ => Ok("");
    assert p + "<" + tag + ">" + rest == p + ['<'] + tag + ['>'] + rest;
    SubstituteGroup(p, tag, rest, '<', '>', repl);
    SubstituteTotal(rest);
    var u := Substitute(rest, '<', '>', repl).value;
    assert Then(repl(tag), Ok(u)) == Ok(u) by {
      assert "" + u == u;
    }
  }

  lemma {:induction false} SubstituteTotal(s: string)
    ensures Substitute(s, '<', '>', _ => Ok("")).Ok?
    decreases |s|
  {
    if s != [] {
      SubstituteTotal(s[1..]);
      if s[0] == '<' && Closing(s[1..], '>').Some? {
        SubstituteTotal(s[Closing(s[1..], '>').value + 2..]);
      }
    }
  }

  // ---- the fields of a resource ----

  /** The keys of the dictionary a resource is: a video has no `index`. */
  predicate HasKey(res: Resource, key: string) {
    key == "url" || key == "type" || key == "mid" || key == "bid" || key == "date"
    || key == "text" || key == "name" || (key == "index" && res.kind.Photo?)
  }

  /** `str(date)` of an optional date: ISO form, or `None`. */
  function DateText(date: Option<Date>): string {
    match date
    case None => "None"
    case Some(d) => ZFill(IntToString(d.year), 4) + "-" + ZFill(IntToString(d.month), 2)
                    + "-" + ZFill(IntToString(d.day), 2)
  }

  /** `str(item[key])` for the remaining keys. */
  function FieldText(res: Resource, name: string, key: string): string {
    if key == "url" then res.url
    else if key == "type" then (if res.kind.Photo? then "photo" else "video")
    else if key == "mid" then IntToString(res.mark.mid)
    else if key == "bid" then res.mark.bid
    else name
  }

  /** `substitute(matched)` for a group `{group}`: the key before the first
      colon selects a field and what follows the first colon is its
      argument. `strftime` stands for `date.strftime`. */
  function Replace(res: Resource, name: string, group: string, strftime: (Date, string) -> string): (r: Result<string>)
    ensures r.Err? ==> (Split(group, ':')[0] == "date" && r.error == AttributeError)
                       || (Split(group, ':')[0] == "index" && r.error == ValueError)
  {
    var key := Split(group, ':');
    if !HasKey(res, key[0]) then Ok(Join(key, ':'))
    else if key[0] == "date" then
      if |key| > 1 then
        match res.mark.date
        case None => Err(AttributeError)
        case Some(d) => Ok(strftime(d, key[1]))
      else Ok(DateText(res.mark.date))
    else if key[0] == "index" then
      match ParseInt(if |key| > 1 then key[1] else "0")
      case None => Err(ValueError)
      case Some(width) => Ok(ZFill(IntToString(res.kind.index), width))
    else if key[0] == "text" then Ok(Strip(RemoveTags(res.mark.text)))
    else Ok(FieldText(res, name, key[0]))
  }

  /** The `substitute` callback of one resource. */
  function Replacer(res: Resource, name: string, strftime: (Date, string) -> string): string -> Result<string> {
    g => Replace(res, name, g, strftime)
  }

  /** `format_name(item)` with the naming template `template`. */
  function FormatName(res: Resource, template: string, strftime: (Date, string) -> string): (r: Result<string>)
    ensures r.Ok? ==> forall k :: 0 <= k < |r.value| ==> !IsIllegal(r.value[k])
    ensures r.Err? ==> '{' in template
  {
    match Substitute(template, '{', '}', Replacer(res, NameOf(res.url), strftime))
    case Ok(t) => Ok(Safe(t))
    case Err(e) => Err(e)
  }

  /** An unknown key leaves the group's text, colons included. */
  lemma UnknownKey(res: Resource, name: string, group: string, strftime: (Date, string) -> string)
    requires !HasKey(res, Split(group, ':')[0])
    ensures Replace(res, name, group, strftime) == Ok(group)
  {
    JoinSplit(group, ':');
  }

  /** `{index}` of a video is the word `index`. */
  lemma VideoIndex(res: Resource, name: string, strftime: (Date, string) -> string)
    requires res.kind.Video?
    ensures Replace(res, name, "index", strftime) == Ok("index")
  {
    UnknownKey(res, name, "index", strftime);
    SplitPlain("index", ':');
  }

  /** `{index:w}` pads the photo's position to `w` digits; the padded text
      still reads as the position. A width that is not a number raises
      `ValueError`. */
  lemma IndexWidth(res: Resource, name: string, width: string, strftime: (Date, string) -> string)
    requires res.kind.Photo? && ':' !in width
    ensures ParseInt(width).Some? ==>
      Replace(res, name, "index" + ":" + width, strftime) == Ok(ZFill(Digits(res.kind.index), ParseInt(width).value))
      && ParseInt(ZFill(Digits(res.kind.index), ParseInt(width).value)) == Some(res.kind.index)
    ensures ParseInt(width).None? ==> Replace(res, name, "index" + ":" + width, strftime) == Err(ValueError)
  {
    KeyArgument("index", width);
    assert HasKey(res, "index") && "index" != "date";
    if ParseInt(width).Some? {
      ParseIntZFill(res.kind.index, ParseInt(width).value);
    }
  }

  /** `key:argument` splits into the key and the argument. */
  lemma KeyArgument(key: string, argument: string)
    requires ':' !in key && ':' !in argument
    ensures Split(key + ":" + argument, ':') == [key, argument]
  {
    SplitJoin([key, argument], ':');
    assert Join([key, argument], ':') == key + ":" + argument by {
      assert [key, argument][1..] == [argument];
    }
  }

  /** `{date}` is the ISO date, or `None` for a post without a date; a
      format argument on a missing date raises `AttributeError`. */
  lemma DateKey(res: Resource, name: string, format: string, strftime: (Date, string) -> string)
    requires ':' !in format
    ensures Replace(res, name, "date", strftime) == Ok(DateText(res.mark.date))
    ensures res.mark.date.None? ==> Replace(res, name, "date" + ":" + format, strftime) == Err(AttributeError)
    ensures res.mark.date.Some? ==>
      Replace(res, name, "date" + ":" + format, strftime) == Ok(strftime(res.mark.date.value, format))
  {
    SplitPlain("date", ':');
    KeyArgument("date", format);
  }

  /** `{name}` is the name cut out of the url. */
  lemma NameKey(res: Resource, name: string, strftime: (Date, string) -> string)
    ensures Replace(res, name, "name", strftime) == Ok(name)
  {
    SplitPlain("name", ':');
  }

  /** A template made of one group gives that group's text, made safe. */
  lemma GroupTemplate(res: Resource, key: string, strftime: (Date, string) -> string)
    requires '}' !in key && '\n' !in key
    ensures var v := Replace(res, NameOf(res.url), key, strftime);
      FormatName(res, "{" + key + "}", strftime) == if v.Ok? then Ok(Safe(v.value)) else v
  {
    var repl := Replacer(res, NameOf(res.url), strftime);
    assert "{" + key + "}" == ['{'] + key + ['}'] + "";
    SubstituteAtGroup(key, "", '{', '}', repl);
    if repl(key).Ok? {
      assert repl(key).value + [] == repl(key).value;
    }
  }

  /** The default template `{name}` names a file after its url. */
  lemma DefaultTemplate(res: Resource, strftime: (Date, string) -> string)
    ensures FormatName(res, "{" + "name" + "}", strftime) == Ok(Safe(NameOf(res.url)))
  {
    PlainKey("name");
    NameKey(res, NameOf(res.url), strftime);
    GroupTemplate(res, "name", strftime);
  }

  lemma PlainKey(key: string)
    requires forall k :: 0 <= k < |key| ==> 'a' <= key[k] <= 'z'
    ensures '}' !in key && '\n' !in key
  {
  }

  /** A template without groups names every resource the same way. */
  lemma FixedTemplate(res: Resource, template: string, strftime: (Date, string) -> string)
    requires '{' !in template
    ensures FormatName(res, template, strftime) == Ok(Safe(template))
  {
    SubstitutePlain(template, '{', '}', Replacer(res, NameOf(res.url), strftime));
  }
}
