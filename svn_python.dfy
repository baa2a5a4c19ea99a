/** The command-line side of the Subversion wrapper (lib/SvnPython.py):
  * how arguments are flattened and split into words, how `update` quotes
  * the files it names, how a failed `svn` run is retried, and how the XML
  * output of `--xml` is turned into nested dictionaries.
  *
  * Processes and the XML parser are not modelled: a run's output is given
  * as data and the XML arrives as an element tree. */
module SvnPython {
  import opened Common
  import opened Strings

  // ---------------------------------------------------------------------
  // shlex.split (POSIX mode, no comments)

  /** The lexer's states: between words, inside a word, inside single or
    * double quotes, and after a backslash outside or inside double quotes. */
  datatype LexState = Between | InWord | InSingle | InDouble | EscWord | EscDouble

  /** The separators `shlex` uses. */
  predicate Blank(c: char) { c == ' ' || c == '\t' || c == '\r' || c == '\n' }

  /** A character that means nothing special to the lexer. */
  predicate Plain(c: char) { !Blank(c) && c != '\'' && c != '"' && c != '\\' }

  function Prepend(w: string, r: Result<seq<string>>): (q: Result<seq<string>>)
  {
    if r.Err? then r else Ok([w] + r.value)
  }

  /** The words of `s`, lexed from state `st` with `cur` the part of the
    * current word read so far. */
  function Lex(s: string, st: LexState, cur: string): Result<seq<string>>
    decreases |s|
  {
    if s == [] then
      match st
      case Between => Ok([])
      case InWord => Ok([cur])
      case InSingle => Raise(ValueError, "No closing quotation")
      case InDouble => Raise(ValueError, "No closing quotation")
      case EscWord => Raise(ValueError, "No escaped character")
      case EscDouble => Raise(ValueError, "No escaped character")
    else
      var c, t := s[0], s[1..];
      match st
      case Between =>
        if Blank(c) then Lex(t, Between, [])
        else if c == '\'' then Lex(t, InSingle, [])
        else if c == '"' then Lex(t, InDouble, [])
        else if c == '\\' then Lex(t, EscWord, [])
        else Lex(t, InWord, [c])
      case InWord =>
        if Blank(c) then Prepend(cur, Lex(t, Between, []))
        else if c == '\'' then Lex(t, InSingle, cur)
        else if c == '"' then Lex(t, InDouble, cur)
        else if c == '\\' then Lex(t, EscWord, cur)
        else Lex(t, InWord, cur + [c])
      case InSingle =>
        if c == '\'' then Lex(t, InWord, cur) else Lex(t, InSingle, cur + [c])
      case InDouble =>
        if c == '"' then Lex(t, InWord, cur)
        else if c == '\\' then Lex(t, EscDouble, cur)
        else Lex(t, InDouble, cur + [c])
      case EscWord => Lex(t, InWord, cur + [c])
      case EscDouble =>
        // inside double quotes only the quote and the backslash are escaped
        Lex(t, InDouble, cur + (if c == '"' || c == '\\' then [c] else ['\\', c]))
  }

  /** `shlex.split(s)`. */
  function ShlexSplit(s: string): Result<seq<string>>
  {
    Lex(s, Between, [])
  }

  /** `shellquote` of `run_update`: the text in single quotes, each single
    * quote inside written as `'\''`. */
  function ShellQuote(s: string): string
  {
    "'" + Replace(s, "'", "'\\''") + "'"
  }

  /** Inside single quotes, `'\''` closes the quotes, adds an escaped quote
    * and opens them again. */
  lemma QuoteEscape(x: string, cur: string)
    ensures Lex("'\\''" + x, InSingle, cur) == Lex(x, InSingle, cur + "'")
  {
    var y := "'\\''" + x;
    var y1, y2, y3 := y[1..], y[2..], y[3..];
    assert y[0] == '\'' && y1[0] == '\\' && y2[0] == '\'' && y3[0] == '\'';
    assert y1[1..] == y2 && y2[1..] == y3 && y3[1..] == x;
    assert Lex(y3, InWord, cur + "'") == Lex(x, InSingle, cur + "'");
    assert Lex(y2, EscWord, cur) == Lex(y3, InWord, cur + "'");
    assert Lex(y1, InWord, cur) == Lex(y2, EscWord, cur);
  }

  /** Inside single quotes the escaped text reads back as the original. */
  lemma {:induction false} QuotedBody(s: string, rest: string, cur: string)
    ensures Lex(Replace(s, "'", "'\\''") + rest, InSingle, cur) == Lex(rest, InSingle, cur + s)
    decreases |s|
  {
    if s == [] {
      assert Replace(s, "'", "'\\''") == [];
      assert [] + rest == rest;
      assert cur + s == cur;
    } else if s[..1] == "'" {
      var tail := Replace(s[1..], "'", "'\\''");
      assert Replace(s, "'", "'\\''") + rest == "'\\''" + (tail + rest);
      QuoteEscape(tail + rest, cur);
      QuotedBody(s[1..], rest, cur + "'");
      assert cur + "'" + s[1..] == cur + s;
    } else {
      var tail := Replace(s[1..], "'", "'\\''");
      assert Replace(s, "'", "'\\''") == [s[0]] + tail;
      assert ([s[0]] + tail + rest)[1..] == tail + rest;
      QuotedBody(s[1..], rest, cur + [s[0]]);
      assert cur + [s[0]] + s[1..] == cur + s;
    }
  }

  /** A quoted word followed by a blank or by nothing reads back as the
    * word. */
  lemma QuotedWord(s: string, rest: string)
    requires rest == [] || Blank(rest[0])
    ensures Lex(ShellQuote(s) + rest, Between, []) ==
            if rest == [] then Ok([s]) else Prepend(s, Lex(rest[1..], Between, []))
  {
    var body := Replace(s, "'", "'\\''");
    assert ShellQuote(s) + rest == "'" + (body + ("'" + rest));
    QuotedBody(s, "'" + rest, []);
    assert [] + s == s;
    assert ("'" + rest)[1..] == rest;
  }

  /** Words, each followed by one blank. */
  function Spaced(ws: seq<string>): string
  {
    if ws == [] then [] else ws[0] + " " + Spaced(ws[1..])
  }

  function Quoted(ws: seq<string>): seq<string>
  {
    if ws == [] then [] else [ShellQuote(ws[0])] + Quoted(ws[1..])
  }

  function PrependAll(ws: seq<string>, r: Result<seq<string>>): Result<seq<string>>
  {
    if r.Err? then r else Ok(ws + r.value)
  }

  /** Quoted words read back as the words, whatever the text after them. */
  lemma {:induction false} QuotedWords(ws: seq<string>, tail: string)
    ensures Lex(Spaced(Quoted(ws)) + tail, Between, []) == PrependAll(ws, Lex(tail, Between, []))
  {
    if ws == [] {
      assert [] + tail == tail;
      var r := Lex(tail, Between, []);
      assert r.Ok? ==> [] + r.value == r.value;
    } else {
      var rest := Spaced(Quoted(ws[1..])) + tail;
      assert Spaced(Quoted(ws)) + tail == ShellQuote(ws[0]) + (" " + rest);
      QuotedWord(ws[0], " " + rest);
      assert (" " + rest)[1..] == rest;
      QuotedWords(ws[1..], tail);
      var r := Lex(tail, Between, []);
      assert r.Ok? ==> [ws[0]] + (ws[1..] + r.value) == ws + r.value;
    }
  }

  predicate PlainWord(w: string) { w != [] && forall i :: 0 <= i < |w| ==> Plain(w[i]) }

  /** A word of plain characters followed by a blank reads back as itself. */
  lemma {:induction false} PlainWordRest(w: string, cur: string, rest: string)
    requires forall i :: 0 <= i < |w| ==> Plain(w[i])
    ensures Lex(w + " " + rest, InWord, cur) == Prepend(cur + w, Lex(rest, Between, []))
  {
    if w == [] {
      assert w + " " + rest == [' '] + rest;
      assert cur + w == cur;
    } else {
      assert (w + " " + rest)[0] == w[0];
      assert (w + " " + rest)[1..] == w[1..] + " " + rest;
      PlainWordRest(w[1..], cur + [w[0]], rest);
      assert cur + [w[0]] + w[1..] == cur + w;
    }
  }

  lemma PlainWordThen(w: string, rest: string)
    requires PlainWord(w)
    ensures Lex(w + " " + rest, Between, []) == Prepend(w, Lex(rest, Between, []))
  {
    assert (w + " " + rest)[1..] == w[1..] + " " + rest;
    PlainWordRest(w[1..], [w[0]], rest);
    assert [w[0]] + w[1..] == w;
  }

  /** Blanks between words are skipped. */
  lemma SkipBlank(rest: string)
    ensures Lex(" " + rest, Between, []) == Lex(rest, Between, [])
  {
    assert (" " + rest)[1..] == rest;
  }

  // ---------------------------------------------------------------------
  // flatten

  /** An argument handed to `_run`: a string, something iterable, or a value
    * of any other type. */
  datatype PyArg = PStr(s: string) | PIter(items: seq<PyArg>) | POther

  /** `flatten`: strings are split into words, iterables are flattened in
    * order, and anything else raises. */
  function Flatten(v: PyArg): Result<seq<string>>
    decreases v
  {
    match v
    case PStr(s) => ShlexSplit(s)
    case PIter(items) => FlattenAll(items)
    case POther => Raise(SvnPythonException, "flatten error: unhandled type")
  }

  function FlattenAll(items: seq<PyArg>): Result<seq<string>>
    decreases items
  {
    if items == [] then Ok([])
    else
      var h := Flatten(items[0]);
      if h.Err? then h else PrependAll(h.value, FlattenAll(items[1..]))
  }

  /** Flattening a concatenation flattens each part in turn, the first
    * error winning. */
  lemma {:induction false} FlattenAllAppend(a: seq<PyArg>, b: seq<PyArg>)
    ensures FlattenAll(a + b) ==
            if FlattenAll(a).Err? then FlattenAll(a) else PrependAll(FlattenAll(a).value, FlattenAll(b))
  {
    if a == [] {
      assert a + b == b;
      var r := FlattenAll(b);
      assert r.Ok? ==> [] + r.value == r.value;
    } else {
      assert (a + b)[0] == a[0] && (a + b)[1..] == a[1..] + b;
      FlattenAllAppend(a[1..], b);
      var h, t := Flatten(a[0]), FlattenAll(b);
      if h.Ok? && FlattenAll(a[1..]).Ok? && t.Ok? {
        assert h.value + (FlattenAll(a[1..]).value + t.value) == h.value + FlattenAll(a[1..]).value + t.value;
      }
    }
  }

  /** A value of an unhandled type anywhere among the items makes `flatten`
    * raise. */
  lemma {:induction false} FlattenRejectsOther(items: seq<PyArg>, k: nat)
    requires k < |items| && items[k] == POther
    ensures FlattenAll(items).Err?
  {
    if k > 0 {
      FlattenRejectsOther(items[1..], k - 1);
    }
  }

  /** Nesting does not change what `flatten` produces. */
  lemma FlattenNested(v: PyArg)
    ensures Flatten(PIter([v])) == Flatten(v)
  {
    assert [v][1..] == [];
    assert FlattenAll([v][1..]) == Ok([]);
    var r := Flatten(v);
    assert r.Ok? ==> r.value + [] == r.value;
  }

  // ---------------------------------------------------------------------
  // _run: the command line and the retry loop

  /** What one `svn` process printed. */
  datatype Reply = Reply(stdout: string, stderr: string)

  /** The error text on which a run is retried. */
  const ConnectGlitch := "Unable to connect to a repository at URL"

  predicate Glitch(rep: Reply) { rep.stderr != [] && Contains(rep.stderr, ConnectGlitch) }

  /** The command line `_run` starts. */
  function CmdList(username: Option<string>, password: Option<string>, subCmd: string, words: seq<string>): (argv: seq<string>)
  {
    ["svn", "--non-interactive"]
    + (if username.Some? then ["--username", username.value] else [])
    + (if password.Some? then ["--password", password.value] else [])
    + [subCmd] + words
  }

  /** The credentials come before the sub-command, the words after it. */
  lemma CmdListShape(username: Option<string>, password: Option<string>, subCmd: string, words: seq<string>)
    ensures var argv := CmdList(username, password, subCmd, words);
            var k := 2 + (if username.Some? then 2 else 0) + (if password.Some? then 2 else 0);
            |argv| == k + 1 + |words| && argv[..2] == ["svn", "--non-interactive"] &&
            argv[k] == subCmd && argv[k + 1..] == words &&
            (username.Some? ==> argv[2..4] == ["--username", username.value]) &&
            (password.Some? ==> argv[k - 2..k] == ["--password", password.value])
  {
  }

  /** The outcome of the tries from number `i` (counting from zero) on, and
    * how many processes were started in all. */
  function RunFrom(replies: seq<Reply>, i: nat): (Result<string>, nat)
    requires i < 3 <= |replies|
    decreases 3 - i
  {
    var rep := replies[i];
    if rep.stderr == [] then (Ok(rep.stdout), i + 1)
    else if Glitch(rep) then
      if i + 1 == 3 then (Raise(SvnPythonException, rep.stderr), 3) else RunFrom(replies, i + 1)
    else (Raise(SvnPythonException, rep.stderr), i + 1)
  }

  /** At most three processes are started; every run but the last failed to
    * connect; the last one's output is returned when it printed no error,
    * and its error is raised otherwise. */
  lemma {:induction false} RunFromFacts(replies: seq<Reply>, i: nat)
    requires i < 3 <= |replies|
    ensures var (r, n) := RunFrom(replies, i);
            i < n <= 3 &&
            (forall j :: i <= j < n - 1 ==> Glitch(replies[j])) &&
            (r.Ok? <==> replies[n - 1].stderr == []) &&
            (r.Ok? ==> r.value == replies[n - 1].stdout) &&
            (r.Err? ==> r.exc == Exc(SvnPythonException, replies[n - 1].stderr)) &&
            (r.Err? && n < 3 ==> !Glitch(replies[n - 1]))
    decreases 3 - i
  {
    var rep := replies[i];
    if rep.stderr != [] && Glitch(rep) && i + 1 < 3 {
      RunFromFacts(replies, i + 1);
    }
  }

  /** `_run`: flattens the arguments, builds the command line and starts
    * `svn` up to three times, `replies[k]` being what try `k` printed. */
  method Run(username: Option<string>, password: Option<string>, subCmd: string, cmdArgs: seq<PyArg>, replies: seq<Reply>)
    returns (argv: seq<string>, r: Result<string>, tries: nat)
    requires |replies| >= 3
    ensures FlattenAll(cmdArgs).Err? ==> r == Err(FlattenAll(cmdArgs).exc) && tries == 0
    ensures FlattenAll(cmdArgs).Ok? ==>
              argv == CmdList(username, password, subCmd, FlattenAll(cmdArgs).value) &&
              (r, tries) == RunFrom(replies, 0)
  {
    var flattened := FlattenAll(cmdArgs);
    if flattened.Err? {
      return [], Err(flattened.exc), 0;
    }
    argv := CmdList(username, password, subCmd, flattened.value);
    var numTry := 3;
    var stderr := "";
    tries := 0;
    while numTry > 0
      invariant 0 <= numTry <= 3 && tries == 3 - numTry
      invariant numTry > 0 ==> RunFrom(replies, 0) == RunFrom(replies, tries)
      invariant numTry == 0 ==> RunFrom(replies, 0) == (Raise(SvnPythonException, stderr), 3)
    {
      var rep := replies[tries];
      tries := tries + 1;
      stderr := rep.stderr;
      if stderr == [] {
        return argv, Ok(rep.stdout), tries;
      }
      if Contains(stderr, ConnectGlitch) {
        numTry := numTry - 1;
        continue;
      }
      return argv, Raise(SvnPythonException, stderr), tries;
    }
    r := Raise(SvnPythonException, stderr);
  }

  // ---------------------------------------------------------------------
  // --list: asking for the output as a list of dictionaries

  /** The arguments `wantsOutputAsDictList` is given: a tuple of words, or
    * something else. */
  datatype ArgsArg = Tuple(items: seq<string>) | NotTuple

  /** `list.remove(x)`: drops the first occurrence. */
  function RemoveFirst(s: seq<string>, x: string): seq<string>
  {
    if s == [] then [] else if s[0] == x then s[1..] else [s[0]] + RemoveFirst(s[1..], x)
  }

  /** `wantsOutputAsDictList`. */
  function WantsOutputAsDictList(args: ArgsArg): Result<Option<seq<string>>>
  {
    match args
    case NotTuple => Raise(TypeError, "")
    case Tuple(items) =>
      if "--list" in items then Ok(Some(RemoveFirst(items, "--list") + ["--xml"])) else Ok(None)
  }

  lemma {:induction false} RemoveFirstAt(s: seq<string>, x: string)
    requires x in s
    ensures var i := IndexOf(s, x).value;
            RemoveFirst(s, x) == s[..i] + s[i + 1..]
  {
    if s[0] != x {
      RemoveFirstAt(s[1..], x);
      var i := IndexOf(s, x).value;
      assert IndexOf(s[1..], x).value == i - 1;
      assert [s[0]] + (s[1..][..i - 1] + s[1..][i..]) == s[..i] + s[i + 1..];
    } else {
      assert IndexOf(s, x).value == 0;
    }
  }

  /** Without a tuple the call raises; without `--list` nothing changes;
    * otherwise the first `--list` gives way to a trailing `--xml` and the
    * other words keep their order. */
  lemma WantsOutputAsDictListMeaning(args: ArgsArg)
    ensures args.NotTuple? ==> WantsOutputAsDictList(args).Err? && WantsOutputAsDictList(args).exc.kind == TypeError
    ensures args.Tuple? ==>
              WantsOutputAsDictList(args).Ok? &&
              (WantsOutputAsDictList(args).value.Some? <==> "--list" in args.items)
    ensures args.Tuple? && "--list" in args.items ==>
              var i := IndexOf(args.items, "--list").value;
              var v := WantsOutputAsDictList(args).value.value;
              "--list" !in args.items[..i] &&
              v == args.items[..i] + args.items[i + 1..] + ["--xml"] &&
              multiset(v) == multiset(args.items) - multiset{"--list"} + multiset{"--xml"}
  {
    if args.Tuple? && "--list" in args.items {
      var s := args.items;
      RemoveFirstAt(s, "--list");
      DropAtMultiset(s, IndexOf(s, "--list").value);
    }
  }

  lemma DropAtMultiset(s: seq<string>, i: nat)
    requires i < |s|
    ensures multiset(s[..i] + s[i + 1..]) == multiset(s) - multiset{s[i]}
  {
    assert s == s[..i] + [s[i]] + s[i + 1..];
  }

  // ---------------------------------------------------------------------
  // createDictFromElement

  /** A parsed XML element: its tag, attributes, text and children. */
  datatype Element = Element(tag: string, attrs: map<string, string>, text: Option<string>, children: seq<Element>)

  /** The Python values the conversion produces. */
  datatype PyVal = PNone | PText(s: string) | PDict(d: map<string, PyVal>) | PList(xs: seq<PyVal>)

  /** The argument of `createDictFromElement`: a list of elements, or
    * something else. */
  datatype ElemArg = EList(es: seq<Element>) | ENotList

  function Size(e: Element): nat
    decreases e
  {
    1 + SizeAll(e.children)
  }

  function SizeAll(es: seq<Element>): nat
    decreases es
  {
    if es == [] then 0 else Size(es[0]) + SizeAll(es[1..])
  }

  /** `element.findall(tag)`: the children with that tag, in order. */
  function WithTag(cs: seq<Element>, t: string): (r: seq<Element>)
    ensures SizeAll(r) <= SizeAll(cs) && |r| <= |cs|
    ensures forall c :: c in r <==> c in cs && c.tag == t
  {
    if cs == [] then []
    else if cs[0].tag == t then [cs[0]] + WithTag(cs[1..], t)
    else WithTag(cs[1..], t)
  }

  function Tags(cs: seq<Element>): set<string>
  {
    set i | 0 <= i < |cs| :: cs[i].tag
  }

  function TextVal(text: Option<string>): PyVal
  {
    if text.Some? then PText(text.value) else PNone
  }

  function AttrDict(attrs: map<string, string>): map<string, PyVal>
  {
    map k | k in attrs :: PText(attrs[k])
  }

  /** The conversion of a list of elements. */
  function FromList(es: seq<Element>): PyVal
    decreases SizeAll(es), 2
  {
    if |es| > 1 then PList(FromEach(es))
    else if es == [] then PDict(map[])
    else
      assert SizeAll(es) == Size(es[0]) + SizeAll(es[1..]);
      FromOne(es[0])
  }

  /** Each element converted on its own. */
  function FromEach(es: seq<Element>): (r: seq<PyVal>)
    ensures |r| == |es|
    decreases SizeAll(es), 1
  {
    if es == [] then [] else [FromOne(es[0])] + FromEach(es[1..])
  }

  /** The conversion of one element: a leaf is its text, or its attributes
    * plus tag to text; an inner element is its attributes plus, for each
    * child tag, the conversion of the children with that tag. */
  function FromOne(e: Element): (r: PyVal)
    ensures !r.PList?
    decreases Size(e), 0
  {
    var attrs := AttrDict(e.attrs);
    if e.children == [] then
      if |attrs| > 0 then PDict(attrs[e.tag := TextVal(e.text)]) else TextVal(e.text)
    else
      PDict(attrs + map t | t in Tags(e.children) :: FromList(WithTag(e.children, t)))
  }

  /** `createDictFromElement`. */
  function CreateDictFromElement(arg: ElemArg): Result<PyVal>
  {
    match arg
    case ENotList => Raise(TypeError, "")
    case EList(es) => Ok(FromList(es))
  }

  lemma {:induction false} FromEachAt(es: seq<Element>, i: nat)
    requires i < |es|
    ensures FromEach(es)[i] == FromOne(es[i])
  {
    if i > 0 {
      FromEachAt(es[1..], i - 1);
    }
  }

  /** Anything but a list raises; an empty list gives an empty dictionary;
    * several elements give a list with one conversion per element, and one
    * element gives its own conversion. */
  lemma CreateDictFromElementCases(arg: ElemArg)
    ensures arg.ENotList? ==> CreateDictFromElement(arg) == Raise(TypeError, "")
    ensures arg.EList? && arg.es == [] ==> CreateDictFromElement(arg) == Ok(PDict(map[]))
    ensures arg.EList? && |arg.es| == 1 ==> CreateDictFromElement(arg) == Ok(FromOne(arg.es[0]))
    ensures arg.EList? && |arg.es| > 1 ==>
              CreateDictFromElement(arg).Ok? && CreateDictFromElement(arg).value.PList? &&
              |CreateDictFromElement(arg).value.xs| == |arg.es| &&
              forall i :: 0 <= i < |arg.es| ==> CreateDictFromElement(arg).value.xs[i] == FromOne(arg.es[i])
  {
    if arg.EList? && |arg.es| > 1 {
      forall i | 0 <= i < |arg.es|
        ensures FromEach(arg.es)[i] == FromOne(arg.es[i])
      {
        FromEachAt(arg.es, i);
      }
    }
  }

  /** A leaf without attributes is its text; with attributes it is a
    * dictionary of the attributes in which the tag maps to the text. */
  lemma LeafConversion(e: Element)
    requires e.children == []
    ensures e.attrs == map[] ==> FromOne(e) == TextVal(e.text)
    ensures e.attrs != map[] ==>
              FromOne(e).PDict? && FromOne(e).d.Keys == e.attrs.Keys + {e.tag} &&
              FromOne(e).d[e.tag] == TextVal(e.text) &&
              forall k :: k in e.attrs && k != e.tag ==> FromOne(e).d[k] == PText(e.attrs[k])
  {
    if e.attrs != map[] {
      var k :| k in e.attrs;
      assert k in AttrDict(e.attrs);
    }
  }

  /** Children are grouped by tag: every child tag is a key, a tag that
    * several children share maps to the list of their conversions in order,
    * a tag only one child has maps to that child's conversion, and an
    * attribute no child tag shadows keeps its value. */
  lemma ChildrenGroupedByTag(e: Element)
    requires e.children != []
    ensures FromOne(e).PDict?
    ensures FromOne(e).d.Keys == e.attrs.Keys + Tags(e.children)
    ensures forall k :: k in e.attrs && k !in Tags(e.children) ==> FromOne(e).d[k] == PText(e.attrs[k])
    ensures forall t :: t in Tags(e.children) ==>
              var group := WithTag(e.children, t);
              var v := FromOne(e).d[t];
              |group| >= 1 &&
              (v.PList? <==> |group| > 1) &&
              (v.PList? ==> |v.xs| == |group| && forall i :: 0 <= i < |group| ==> v.xs[i] == FromOne(group[i])) &&
              (!v.PList? ==> v == FromOne(group[0]))
  {
    forall t | t in Tags(e.children)
      ensures |WithTag(e.children, t)| >= 1
    {
      var i :| 0 <= i < |e.children| && e.children[i].tag == t;
      assert e.children[i] in WithTag(e.children, t);
    }
    forall t, i | t in Tags(e.children) && 0 <= i < |WithTag(e.children, t)| && |WithTag(e.children, t)| > 1
      ensures FromEach(WithTag(e.children, t))[i] == FromOne(WithTag(e.children, t)[i])
    {
      FromEachAt(WithTag(e.children, t), i);
    }
  }

  // ---------------------------------------------------------------------
  // run_update: the command it builds

  /** `sorted(xs, key=key)`, which is stable: an element goes before the
    * first later element whose key is not smaller. */
  function InsertBy<T>(x: T, ys: seq<T>, key: T -> nat): (r: seq<T>)
    ensures |r| == |ys| + 1
  {
    if ys == [] || key(x) <= key(ys[0]) then [x] + ys else [ys[0]] + InsertBy(x, ys[1..], key)
  }

  function SortBy<T>(xs: seq<T>, key: T -> nat): (r: seq<T>)
    ensures |r| == |xs|
  {
    if xs == [] then [] else InsertBy(xs[0], SortBy(xs[1..], key), key)
  }

  predicate SortedBy<T>(s: seq<T>, key: T -> nat)
  {
    forall i, j :: 0 <= i < j < |s| ==> key(s[i]) <= key(s[j])
  }

  /** The elements whose key is `k`, in order. */
  function WithKey<T>(s: seq<T>, key: T -> nat, k: nat): seq<T>
  {
    if s == [] then [] else (if key(s[0]) == k then [s[0]] else []) + WithKey(s[1..], key, k)
  }

  /** Inserting keeps a lower bound on the keys. */
  lemma {:induction false} InsertByBounded<T>(x: T, ys: seq<T>, key: T -> nat, lo: nat)
    requires lo <= key(x) && forall i :: 0 <= i < |ys| ==> lo <= key(ys[i])
    ensures forall i :: 0 <= i < |InsertBy(x, ys, key)| ==> lo <= key(InsertBy(x, ys, key)[i])
  {
    if ys != [] && key(x) > key(ys[0]) {
      InsertByBounded(x, ys[1..], key, lo);
      var r := InsertBy(x, ys[1..], key);
      assert forall i :: 1 <= i < |r| + 1 ==> ([ys[0]] + r)[i] == r[i - 1];
    }
  }

  lemma ConsSorted<T>(h: T, r: seq<T>, key: T -> nat)
    requires SortedBy(r, key) && forall i :: 0 <= i < |r| ==> key(h) <= key(r[i])
    ensures SortedBy([h] + r, key)
  {
    assert forall i :: 1 <= i < |r| + 1 ==> ([h] + r)[i] == r[i - 1];
  }

  lemma {:induction false} InsertBySorted<T>(x: T, ys: seq<T>, key: T -> nat)
    requires SortedBy(ys, key)
    ensures SortedBy(InsertBy(x, ys, key), key)
  {
    if ys == [] || key(x) <= key(ys[0]) {
      ConsSorted(x, ys, key);
    } else {
      InsertBySorted(x, ys[1..], key);
      InsertByBounded(x, ys[1..], key, key(ys[0]));
      ConsSorted(ys[0], InsertBy(x, ys[1..], key), key);
    }
  }

  lemma {:induction false} InsertByElements<T>(x: T, ys: seq<T>, key: T -> nat)
    ensures multiset(InsertBy(x, ys, key)) == multiset(ys) + multiset{x}
    ensures forall i :: 0 <= i < |InsertBy(x, ys, key)| ==> InsertBy(x, ys, key)[i] == x || InsertBy(x, ys, key)[i] in ys
  {
    if ys != [] && key(x) > key(ys[0]) {
      InsertByElements(x, ys[1..], key);
      assert ys == [ys[0]] + ys[1..];
      var r := InsertBy(x, ys[1..], key);
      assert forall i :: 0 <= i < |r| ==> r[i] == ([ys[0]] + r)[i + 1];
    }
  }

  lemma {:induction false} InsertByWithKey<T>(x: T, ys: seq<T>, key: T -> nat, k: nat)
    ensures WithKey(InsertBy(x, ys, key), key, k) == (if key(x) == k then [x] else []) + WithKey(ys, key, k)
  {
    if ys == [] || key(x) <= key(ys[0]) {
      assert ([x] + ys)[1..] == ys;
    } else {
      var r := InsertBy(x, ys[1..], key);
      assert ([ys[0]] + r)[0] == ys[0] && ([ys[0]] + r)[1..] == r;
      InsertByWithKey(x, ys[1..], key, k);
      var cx := if key(x) == k then [x] else [];
      var cy := if key(ys[0]) == k then [ys[0]] else [];
      assert WithKey(ys, key, k) == cy + WithKey(ys[1..], key, k);
      assert WithKey([ys[0]] + r, key, k) == cy + (cx + WithKey(ys[1..], key, k));
      assert key(x) == k ==> cy == [];
    }
  }

  /** `sorted` orders by the key, keeps every element, and keeps the order
    * of elements with equal keys. */
  lemma {:induction false} SortByCorrect<T>(xs: seq<T>, key: T -> nat)
    ensures SortedBy(SortBy(xs, key), key)
    ensures multiset(SortBy(xs, key)) == multiset(xs)
    ensures forall k: nat :: WithKey(SortBy(xs, key), key, k) == WithKey(xs, key, k)
  {
    if xs != [] {
      SortByCorrect(xs[1..], key);
      InsertBySorted(xs[0], SortBy(xs[1..], key), key);
      InsertByElements(xs[0], SortBy(xs[1..], key), key);
      assert xs == [xs[0]] + xs[1..];
      forall k: nat
        ensures WithKey(SortBy(xs, key), key, k) == WithKey(xs, key, k)
      {
        InsertByWithKey(xs[0], SortBy(xs[1..], key), key, k);
        assert WithKey(xs, key, k) == (if key(xs[0]) == k then [xs[0]] else []) + WithKey(xs[1..], key, k);
      }
    }
  }

  /** `zip`: pairs up to the shorter length. */
  function Zip(a: seq<string>, b: seq<string>): (r: seq<(string, string)>)
    ensures |r| == if |a| < |b| then |a| else |b|
    ensures forall i :: 0 <= i < |r| ==> r[i] == (a[i], b[i])
  {
    if a == [] || b == [] then [] else [(a[0], b[0])] + Zip(a[1..], b[1..])
  }

  function Repeat(w: string, n: nat): (r: seq<string>)
    ensures |r| == n && forall i :: 0 <= i < n ==> r[i] == w
  {
    if n == 0 then [] else [w] + Repeat(w, n - 1)
  }

  function Len(f: string): nat { |f| }

  function FileLen(p: (string, string)): nat { |p.0| }

  /** The first argument of `run_update`: one file name or several. */
  datatype FilesArg = OneFile(f: string) | Files(fs: seq<string>)

  /** The revision argument; `None`, `''` and `0` all mean `HEAD`. */
  datatype Revision = NoRevision | RevText(text: string) | RevNum(n: int)

  function FileList(files: FilesArg): seq<string>
  {
    if files.OneFile? then [files.f] else files.fs
  }

  function RevisionWord(revision: Revision): string
  {
    match revision
    case NoRevision => "HEAD"
    case RevText(text) => if text == [] then "HEAD" else text
    case RevNum(n) => if n == 0 then "HEAD" else IntToString(n)
  }

  /** The peg revisions; none given means an empty peg for every file. */
  function PegList(files: seq<string>, pegRevs: seq<string>): seq<string>
  {
    if pegRevs == [] then Repeat("", |files|) else pegRevs
  }

  /** `file@peg` for every pair. */
  function Targets(pairs: seq<(string, string)>): (r: seq<string>)
    ensures |r| == |pairs| && forall i :: 0 <= i < |r| ==> r[i] == pairs[i].0 + "@" + pairs[i].1
  {
    if pairs == [] then [] else [pairs[0].0 + "@" + pairs[0].1] + Targets(pairs[1..])
  }

  /** The argument string `run_update` hands to `svn update`. */
  function UpdateCommand(revision: Revision, pairs: seq<(string, string)>, updateArg: string): string
  {
    "-r " + RevisionWord(revision) + " --parents " + Join(Quoted(Targets(pairs)), " ") + " " + updateArg
  }

  /** The pairs as written: the files sorted by length, zipped with the
    * peg revisions in the order they were given. */
  function AsWrittenPairs(files: FilesArg, pegRevs: seq<string>): seq<(string, string)>
  {
    var fs := FileList(files);
    Zip(SortBy(fs, Len), PegList(fs, pegRevs))
  }

  /** The pairs as intended: each file keeps its own peg revision, and the
    * pairs are sorted by the length of the file name. */
  function UpdatePairs(files: FilesArg, pegRevs: seq<string>): seq<(string, string)>
  {
    var fs := FileList(files);
    SortBy(Zip(fs, PegList(fs, pegRevs)), FileLen)
  }

  /** `run_update` as written: the string it passes to `_run`. */
  function UpdateArgsAsWritten(files: FilesArg, revision: Revision, pegRevs: seq<string>, updateArg: string): string
  {
    UpdateCommand(revision, AsWrittenPairs(files, pegRevs), updateArg)
  }

  /** `run_update` with each file kept with its own peg revision. */
  function UpdateArgs(files: FilesArg, revision: Revision, pegRevs: seq<string>, updateArg: string): string
  {
    UpdateCommand(revision, UpdatePairs(files, pegRevs), updateArg)
  }

  lemma {:induction false} JoinSpaced(ws: seq<string>, tail: string)
    requires ws != []
    ensures Join(ws, " ") + " " + tail == Spaced(ws) + tail
  {
    if |ws| > 1 {
      JoinSpaced(ws[1..], tail);
      var j := Join(ws[1..], " ");
      assert Join(ws, " ") == ws[0] + " " + j;
      assert ws[0] + " " + j + " " + tail == ws[0] + " " + (j + " " + tail);
      assert Spaced(ws) + tail == ws[0] + " " + (Spaced(ws[1..]) + tail);
    } else {
      assert ws[1..] == [];
    }
  }

  lemma {:induction false} QuotedLength(ws: seq<string>)
    ensures |Quoted(ws)| == |ws|
  {
    if ws != [] {
      QuotedLength(ws[1..]);
    }
  }

  /** Quoted words joined by blanks, then a blank and more text, read back
    * as the words followed by the words of that text. */
  lemma QuotedJoinWords(ws: seq<string>, tail: string)
    ensures Lex(Join(Quoted(ws), " ") + " " + tail, Between, []) == PrependAll(ws, Lex(tail, Between, []))
  {
    var q := Quoted(ws);
    QuotedLength(ws);
    if q == [] {
      SkipBlank(tail);
      assert ws == [];
      var r := Lex(tail, Between, []);
      assert r.Ok? ==> [] + r.value == r.value;
    } else {
      JoinSpaced(q, tail);
      QuotedWords(ws, tail);
    }
  }

  /** Three plain words, each followed by a blank, read back as
    * themselves. */
  lemma ThreePlainWords(a: string, b: string, c: string, tail: string)
    requires PlainWord(a) && PlainWord(b) && PlainWord(c)
    ensures Lex(a + " " + (b + " " + (c + " " + tail)), Between, []) == PrependAll([a, b, c], Lex(tail, Between, []))
  {
    PlainWordThen(a, b + " " + (c + " " + tail));
    PlainWordThen(b, c + " " + tail);
    PlainWordThen(c, tail);
    var r := Lex(tail, Between, []);
    if r.Ok? {
      assert [a] + ([b] + ([c] + r.value)) == [a, b, c] + r.value;
    }
  }

  lemma PrependAllTwice(a: seq<string>, b: seq<string>, r: Result<seq<string>>)
    ensures PrependAll(a, PrependAll(b, r)) == PrependAll(a + b, r)
  {
    if r.Ok? {
      assert a + (b + r.value) == a + b + r.value;
    }
  }

  lemma CommandShape(rev: string, targets: string, updateArg: string)
    ensures "-r " + rev + " --parents " + targets + " " + updateArg ==
            "-r" + " " + (rev + " " + ("--parents" + " " + (targets + " " + updateArg)))
  {
    assert "-r " == "-r" + " " && " --parents " == " " + "--parents" + " ";
  }

  /** When the revision is a plain word, the command splits into `-r`, the
    * revision, `--parents`, one word `file@peg` per pair in order, and the
    * words of the extra argument, whatever quotes the file names hold. */
  lemma UpdateCommandWords(revision: Revision, pairs: seq<(string, string)>, updateArg: string)
    requires PlainWord(RevisionWord(revision))
    ensures ShlexSplit(UpdateCommand(revision, pairs, updateArg)) ==
            PrependAll(["-r", RevisionWord(revision), "--parents"] + Targets(pairs), ShlexSplit(updateArg))
  {
    var rev := RevisionWord(revision);
    var ts := Targets(pairs);
    var tail := Join(Quoted(ts), " ") + " " + updateArg;
    CommandShape(rev, Join(Quoted(ts), " "), updateArg);
    ThreePlainWords("-r", rev, "--parents", tail);
    QuotedJoinWords(ts, updateArg);
    PrependAllTwice(["-r", rev, "--parents"], ts, ShlexSplit(updateArg));
  }

  /** The default revision and any non-zero revision number are plain
    * words. */
  lemma RevisionWordPlain(revision: Revision)
    requires !revision.RevText?
    ensures PlainWord(RevisionWord(revision))
  {
    var w := RevisionWord(revision);
    if revision.RevNum? && revision.n != 0 {
      forall i | 0 <= i < |w|
        ensures Plain(w[i])
      {
        if revision.n < 0 {
          assert w == "-" + NatToString(-revision.n);
          if i > 0 {
            assert w[i] == NatToString(-revision.n)[i - 1];
          }
        }
      }
    }
  }

  /** As intended, every pair is one of the given (file, peg) pairs, every
    * given pair is kept, and the pairs are in order of file-name length. */
  lemma UpdatePairsCorrect(files: FilesArg, pegRevs: seq<string>)
    ensures var fs := FileList(files);
            multiset(UpdatePairs(files, pegRevs)) == multiset(Zip(fs, PegList(fs, pegRevs))) &&
            SortedBy(UpdatePairs(files, pegRevs), FileLen)
  {
    var fs := FileList(files);
    SortByCorrect(Zip(fs, PegList(fs, pegRevs)), FileLen);
  }

  /** Sorting first and zipping after moves a peg revision onto another
    * file: `bb` was given peg `1` and `a` peg `2`. */
  lemma PegsMispaired()
    ensures AsWrittenPairs(Files(["bb", "a"]), ["1", "2"]) == [("a", "1"), ("bb", "2")]
    ensures UpdatePairs(Files(["bb", "a"]), ["1", "2"]) == [("a", "2"), ("bb", "1")]
    ensures ("a", "1") !in Zip(["bb", "a"], ["1", "2"])
  {
    assert SortBy(["a"], Len) == ["a"];
    assert SortBy(["bb", "a"], Len) == InsertBy("bb", ["a"], Len);
    assert ["bb", "a"][1..] == ["a"];
    assert Zip(["bb", "a"], ["1", "2"]) == [("bb", "1"), ("a", "2")];
    var z := [("bb", "1"), ("a", "2")];
    assert z[1..] == [("a", "2")];
    assert SortBy([("a", "2")], FileLen) == [("a", "2")];
  }

  lemma {:induction false} InsertByConstPeg(x: string, ys: seq<string>, w: string)
    ensures InsertBy((x, w), Zip(ys, Repeat(w, |ys|)), FileLen) == Zip(InsertBy(x, ys, Len), Repeat(w, |ys| + 1))
  {
    var z := Zip(ys, Repeat(w, |ys|));
    if ys == [] || Len(x) <= Len(ys[0]) {
      assert z == [] || FileLen((x, w)) <= FileLen(z[0]);
    } else {
      assert z[0] == (ys[0], w);
      assert z[1..] == Zip(ys[1..], Repeat(w, |ys| - 1));
      InsertByConstPeg(x, ys[1..], w);
    }
  }

  /** With one and the same peg for every file, as when none is given,
    * sorting first does no harm: both orders give the same pairs. */
  lemma {:induction false} ConstPegsAgree(fs: seq<string>, w: string)
    ensures SortBy(Zip(fs, Repeat(w, |fs|)), FileLen) == Zip(SortBy(fs, Len), Repeat(w, |fs|))
  {
    if fs != [] {
      var z := Zip(fs, Repeat(w, |fs|));
      assert z[0] == (fs[0], w);
      assert z[1..] == Zip(fs[1..], Repeat(w, |fs| - 1));
      ConstPegsAgree(fs[1..], w);
      InsertByConstPeg(fs[0], SortBy(fs[1..], Len), w);
    }
  }

  /** Without peg revisions the command as written is the intended one. */
  lemma DefaultPegsAgree(files: FilesArg, revision: Revision, updateArg: string)
    ensures UpdateArgsAsWritten(files, revision, [], updateArg) == UpdateArgs(files, revision, [], updateArg)
  {
    ConstPegsAgree(FileList(files), "");
  }

  /** What `run_update` hands to `_run` becomes, once flattened, `-r`, the
    * revision, `--parents`, one `file@peg` word per file with its own peg,
    * shortest name first, and the words of the extra argument. */
  lemma UpdateArgsWords(files: FilesArg, revision: Revision, pegRevs: seq<string>, updateArg: string)
    requires PlainWord(RevisionWord(revision))
    ensures FlattenAll([PStr(UpdateArgs(files, revision, pegRevs, updateArg))]) ==
            PrependAll(["-r", RevisionWord(revision), "--parents"] + Targets(UpdatePairs(files, pegRevs)), ShlexSplit(updateArg))
  {
    FlattenNested(PStr(UpdateArgs(files, revision, pegRevs, updateArg)));
    UpdateCommandWords(revision, UpdatePairs(files, pegRevs), updateArg);
  }
}
