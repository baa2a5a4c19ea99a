/** The Perforce-to-Perforce driver (P4P4Replicate.py): it creates a
  * temporary workspace on each server, writes the configuration file the
  * transfer script reads, and builds that script's argument list.
  *
  * Files are not modelled: the mapping file arrives as its lines, and the
  * configuration file is the text that would be written. */
module P4P4Replicate {
  import opened Common
  import opened Strings
  import opened P4Server

  // ---------------------------------------------------------------------
  // create_p4_workspace

  /** `str.split()` with no separator: the runs of non-blank characters. */
  function Words(s: string): seq<string>
  {
    WordsFrom(s, [])
  }

  function WordsFrom(s: string, cur: string): (r: seq<string>)
    ensures forall i :: 0 <= i < |r| ==> r[i] != []
    decreases |s|
  {
    if s == [] then (if cur == [] then [] else [cur])
    else if IsSpace(s[0]) then (if cur == [] then [] else [cur]) + WordsFrom(s[1..], [])
    else WordsFrom(s[1..], cur + [s[0]])
  }

  predicate NoSpace(s: string) { forall i :: 0 <= i < |s| ==> !IsSpace(s[i]) }

  lemma {:induction false} WordsOfWord(w: string, cur: string, rest: string)
    requires NoSpace(w) && rest != [] && IsSpace(rest[0])
    ensures WordsFrom(w + rest, cur) == (if cur + w == [] then [] else [cur + w]) + WordsFrom(rest[1..], [])
  {
    if w == [] {
      assert w + rest == rest;
      assert cur + w == cur;
    } else {
      assert (w + rest)[0] == w[0] && (w + rest)[1..] == w[1..] + rest;
      WordsOfWord(w[1..], cur + [w[0]], rest);
      assert cur + [w[0]] + w[1..] == cur + w;
    }
  }

  lemma {:induction false} WordsOfLastWord(w: string, cur: string)
    requires NoSpace(w)
    ensures WordsFrom(w, cur) == if cur + w == [] then [] else [cur + w]
  {
    if w == [] {
      assert cur + w == cur;
    } else {
      WordsOfLastWord(w[1..], cur + [w[0]]);
      assert cur + [w[0]] + w[1..] == cur + w;
    }
  }

  /** One line of the mapping file made into a `WorkspaceMapping`: it must
    * hold exactly two words. */
  function MappingOfLine(line: string): (r: Result<MappingArg>)
    ensures r.Ok? ==> r.value.WsMapping? && r.value.depotDir != [] && r.value.relDir != []
  {
    var ws := Words(line);
    if |ws| == 2 then Ok(WsMapping(ws[0], ws[1]))
    else Raise(TypeError, "Expected 2 arguments, got " + NatToString(|ws|))
  }

  function MappingOfLines(lines: seq<string>): (r: Result<seq<MappingArg>>)
    ensures r.Ok? ==> |r.value| == |lines| && AllMappings(r.value)
  {
    if lines == [] then Ok([])
    else
      var m := MappingOfLine(lines[0]);
      if m.Err? then Err(m.exc)
      else
        var rest := MappingOfLines(lines[1..]);
        if rest.Err? then rest else Ok([m.value] + rest.value)
  }

  /** A line written as `depot rel` followed by a newline reads back as
    * that mapping. */
  lemma MappingLineRoundTrip(depot: string, rel: string)
    requires depot != [] && rel != [] && NoSpace(depot) && NoSpace(rel)
    ensures MappingOfLine(depot + " " + rel + "\n") == Ok(WsMapping(depot, rel))
  {
    var tail := rel + "\n";
    assert depot + " " + rel + "\n" == depot + (" " + tail);
    WordsOfWord(depot, [], " " + tail);
    assert (" " + tail)[1..] == tail;
    WordsOfWord(rel, [], "\n");
    assert WordsFrom("\n"[1..], []) == [];
    assert [] + depot == depot && [] + rel == rel;
  }

  /** The workspace part of the configuration `create_p4_workspace` reads:
    * the mapping file's path, the root and the unique id. */
  datatype WsCfg = WsCfg(mappingcfg: string, wsRoot: Option<string>, uniqueId: Option<string>)

  /** The attributes of a Python dictionary object. */
  const DictAttributes: set<string> :=
    {"clear", "copy", "fromkeys", "get", "has_key", "items", "iteritems", "iterkeys", "itervalues",
     "keys", "pop", "popitem", "setdefault", "update", "values", "viewitems", "viewkeys", "viewvalues"}

  /** `hasattr(d, name)` for a dictionary `d`: true only for its methods,
    * never for one of its keys. */
  predicate DictHasAttr(name: string) { name in DictAttributes }

  /** The unique id as written: looked up only when the dictionary has an
    * attribute named `uniqueid`. */
  function UniqueIdAsWritten(cfg: WsCfg): Option<string>
  {
    if DictHasAttr("uniqueid") then cfg.uniqueId else None
  }

  /** The unique id as intended: `ws_cfg.get('uniqueid')`. */
  function UniqueId(cfg: WsCfg): Option<string>
  {
    cfg.uniqueId
  }

  /** As written the configured unique id is never used: a workspace is
    * always named with a random suffix, though `uniqueid = "7"` is set. */
  lemma UniqueIdIgnored(cfg: WsCfg)
    ensures UniqueIdAsWritten(cfg) == None
    ensures UniqueIdAsWritten(WsCfg("map.cfg", None, Some("7"))) != UniqueId(WsCfg("map.cfg", None, Some("7")))
  {
    assert "uniqueid" !in DictAttributes;
  }

  function OrEmpty(o: Option<string>): string { if o.Some? then o.value else "" }

  /** `create_p4_workspace`, with the configured unique id used: the
    * mapping file is read, the workspace created, and `clients` (what
    * `p4 clients` lists afterwards) must name it. `shown` is the repr of
    * the mappings as `create_workspace` receives them. */
  method CreateP4Workspace(p4: Server, cfg: WsCfg, mappingLines: seq<string>, shown: string, lineEnd: string, stream: Option<string>,
                           clients: seq<string>, osCwd: string, randomId: string, host: string) returns (r: Result<()>)
    modifies p4
    ensures var ms := MappingOfLines(mappingLines);
            (ms.Err? ==> r == Err(ms.exc) && p4.cmds == old(p4.cmds) && p4.client == old(p4.client) &&
                         p4.input == old(p4.input) && p4.cwd == old(p4.cwd)) &&
            (ms.Ok? ==>
              var root := if OrEmpty(cfg.wsRoot) == "" then osCwd else OrEmpty(cfg.wsRoot);
              var id := if OrEmpty(UniqueId(cfg)) == "" then randomId else OrEmpty(UniqueId(cfg));
              var spec := WorkspaceSpec(old(p4.user), host, ms.value, shown, root, id, lineEnd, stream);
              (spec.Err? ==> r == Err(spec.exc) && p4.cmds == old(p4.cmds) && p4.client == old(p4.client) &&
                             p4.input == old(p4.input) && p4.cwd == old(p4.cwd)) &&
              (spec.Ok? ==> p4.client == spec.value.0 && p4.input == spec.value.1 && p4.cwd == root &&
                            p4.cmds == old(p4.cmds) + [Cmd("client", ["-i"])] +
                                       (if StreamGiven(stream) then [Cmd("switch", [stream.value])] else []) &&
                            (r.Ok? <==> spec.value.0 in clients) &&
                            (r.Err? ==> r.exc == Exc(PlainException, "failed to create client " + spec.value.0))))
  {
    var ms := MappingOfLines(mappingLines);
    if ms.Err? {
      return Err(ms.exc);
    }
    var created := p4.CreateWorkspace(ms.value, shown, OrEmpty(cfg.wsRoot), OrEmpty(UniqueId(cfg)), lineEnd, stream, osCwd, randomId, host);
    if created.Err? {
      return Err(created.exc);
    }
    var name := created.value;
    var listed := Listed(clients, name);
    if listed {
      return Ok(());
    }
    r := Raise(PlainException, "failed to create client " + name);
  }

  /** The loop of `create_p4_workspace` looking for the new workspace among
    * the listed clients. */
  method Listed(clients: seq<string>, name: string) returns (found: bool)
    ensures found <==> name in clients
  {
    var i := 0;
    while i < |clients|
      invariant 0 <= i <= |clients|
      invariant name !in clients[..i]
    {
      if clients[i] == name {
        return true;
      }
      i := i + 1;
    }
    assert clients[..i] == clients;
    return false;
  }

  // ---------------------------------------------------------------------
  // create_PerforceReplicate_cfg_file

  /** The keys the transfer script understands; nothing else is written. */
  const CfgKeys: set<string> := {"p4client", "p4port", "p4user", "p4passwd", "counter", "endchange", "empty_file"}

  /** The entries that are written, in order: known keys with a value. */
  function CfgEntries(cfg: seq<(string, Option<string>)>): (r: seq<(string, string)>)
    ensures forall e :: e in r <==> e.0 in CfgKeys && (e.0, Some(e.1)) in cfg
  {
    if cfg == [] then []
    else
      var (k, v) := cfg[0];
      assert forall e :: e in cfg <==> e == cfg[0] || e in cfg[1..];
      (if k in CfgKeys && v.Some? then [(k, v.value)] else []) + CfgEntries(cfg[1..])
  }

  function CfgLines(entries: seq<(string, string)>): (r: seq<string>)
    ensures |r| == |entries| && forall i :: 0 <= i < |r| ==> r[i] == entries[i].0 + "=" + entries[i].1
  {
    if entries == [] then [] else [entries[0].0 + "=" + entries[0].1] + CfgLines(entries[1..])
  }

  /** The text of the configuration file: a `[source]` section, a
    * `[target]` section and an empty `[general]` section. */
  function CfgContent(src: seq<(string, Option<string>)>, tgt: seq<(string, Option<string>)>): string
  {
    var srcContent := "[source]\n" + Join(CfgLines(CfgEntries(src)), "\n");
    var tgtContent := "[target]\n" + Join(CfgLines(CfgEntries(tgt)), "\n");
    Join([srcContent, tgtContent, "[general]\n"], "\n")
  }

  /** The lines of a section's body; an empty section leaves one empty line. */
  function Body(lines: seq<string>): seq<string> { if lines == [] then [""] else lines }

  /** `key=value` read back: the text before the first `=` and after it. */
  function ParseCfgLine(line: string): (string, string)
  {
    var i := IndexOf(line, '=');
    if i.Some? then (line[..i.value], line[i.value + 1..]) else (line, "")
  }

  lemma {:induction false} SplitJoin(parts: seq<string>, sep: char)
    requires parts != [] && forall i :: 0 <= i < |parts| ==> sep !in parts[i]
    ensures Split(Join(parts, [sep]), sep) == parts
  {
    if |parts| == 1 {
      SplitNoSep(parts[0], sep);
    } else {
      SplitJoin(parts[1..], sep);
      SplitAppend(parts[0], Join(parts[1..], [sep]), sep);
      SplitNoSep(parts[0], sep);
    }
  }

  lemma {:induction false} JoinAppend(a: seq<string>, b: seq<string>, sep: string)
    requires a != [] && b != []
    ensures Join(a + b, sep) == Join(a, sep) + sep + Join(b, sep)
  {
    if |a| == 1 {
      assert (a + b)[1..] == b;
    } else {
      assert (a + b)[1..] == a[1..] + b;
      JoinAppend(a[1..], b, sep);
    }
  }

  /** The known keys hold neither `=` nor a line break. */
  lemma CfgKeyPlain(k: string)
    requires k in CfgKeys
    ensures '=' !in k && '\n' !in k
  {
    if k == "p4client" {
    } else if k == "p4port" {
    } else if k == "p4user" {
    } else if k == "p4passwd" {
    } else if k == "counter" {
    } else if k == "endchange" {
    } else {
      assert k == "empty_file";
    }
  }

  lemma SectionJoin(header: string, lines: seq<string>)
    ensures Join([header] + Body(lines), "\n") == header + "\n" + Join(lines, "\n")
  {
    JoinAppend([header], Body(lines), "\n");
  }

  predicate NoBreaks(ps: seq<string>) { forall i :: 0 <= i < |ps| ==> '\n' !in ps[i] }

  lemma NoBreaksAppend(a: seq<string>, b: seq<string>)
    requires NoBreaks(a) && NoBreaks(b)
    ensures NoBreaks(a + b)
  {
    assert forall i :: |a| <= i < |a + b| ==> (a + b)[i] == b[i - |a|];
  }

  lemma {:induction false} JoinThree(a: seq<string>, b: seq<string>, c: seq<string>)
    requires a != [] && b != [] && c != []
    ensures Join(a + b + c, "\n") == Join([Join(a, "\n"), Join(b, "\n"), Join(c, "\n")], "\n")
  {
    JoinAppend(b, c, "\n");
    JoinAppend(a, b + c, "\n");
    assert a + (b + c) == a + b + c;
    var xs := [Join(a, "\n"), Join(b, "\n"), Join(c, "\n")];
    assert xs[1..] == [xs[1], xs[2]] && xs[1..][1..] == [xs[2]];
    assert Join(xs[1..][1..], "\n") == xs[2];
    assert Join(xs[1..], "\n") == xs[1] + "\n" + xs[2];
    assert Join(xs, "\n") == xs[0] + "\n" + (xs[1] + "\n" + xs[2]);
  }

  /** The three sections joined are the joined lines of all three. */
  lemma SectionsJoined(h1: string, s: seq<string>, h2: string, t: seq<string>, h3: string)
    ensures Join([h1 + "\n" + Join(s, "\n"), h2 + "\n" + Join(t, "\n"), h3 + "\n"], "\n") ==
            Join([h1] + Body(s) + [h2] + Body(t) + [h3, ""], "\n")
  {
    var a, b, c := [h1] + Body(s), [h2] + Body(t), [h3, ""];
    SectionJoin(h1, s);
    SectionJoin(h2, t);
    assert c[1..] == [""];
    assert Join(c, "\n") == h3 + "\n";
    JoinThree(a, b, c);
    assert a + b + c == [h1] + Body(s) + [h2] + Body(t) + [h3, ""];
  }

  lemma SectionsNoBreaks(h1: string, s: seq<string>, h2: string, t: seq<string>, h3: string)
    requires NoBreaks([h1, h2, h3]) && NoBreaks(s) && NoBreaks(t)
    ensures NoBreaks([h1] + Body(s) + [h2] + Body(t) + [h3, ""])
  {
    var a, b, c := [h1] + Body(s), [h2] + Body(t), [h3, ""];
    assert NoBreaks(Body(s)) && NoBreaks(Body(t));
    assert '\n' !in [h1, h2, h3][0] && '\n' !in [h1, h2, h3][1] && '\n' !in [h1, h2, h3][2];
    assert NoBreaks([h1]) && NoBreaks([h2]) && NoBreaks(c);
    NoBreaksAppend([h1], Body(s));
    NoBreaksAppend([h2], Body(t));
    NoBreaksAppend(a, b);
    NoBreaksAppend(a + b, c);
  }

  /** Sections joined by line breaks split back into their lines. */
  lemma SectionsSplitAt(h1: string, s: seq<string>, h2: string, t: seq<string>, h3: string)
    requires NoBreaks([h1, h2, h3]) && NoBreaks(s) && NoBreaks(t)
    ensures Split(Join([h1 + "\n" + Join(s, "\n"), h2 + "\n" + Join(t, "\n"), h3 + "\n"], "\n"), '\n') ==
            [h1] + Body(s) + [h2] + Body(t) + [h3, ""]
  {
    SectionsJoined(h1, s, h2, t, h3);
    SectionsNoBreaks(h1, s, h2, t, h3);
    SplitJoin([h1] + Body(s) + [h2] + Body(t) + [h3, ""], '\n');
  }

  lemma SectionsSplit(s: seq<string>, t: seq<string>)
    requires NoBreaks(s) && NoBreaks(t)
    ensures Split(Join(["[source]\n" + Join(s, "\n"), "[target]\n" + Join(t, "\n"), "[general]\n"], "\n"), '\n') ==
            ["[source]"] + Body(s) + ["[target]"] + Body(t) + ["[general]", ""]
  {
    assert "[source]" + "\n" == "[source]\n" && "[target]" + "\n" == "[target]\n" && "[general]" + "\n" == "[general]\n";
    assert NoBreaks(["[source]", "[target]", "[general]"]);
    SectionsSplitAt("[source]", s, "[target]", t, "[general]");
  }

  lemma NoNewlineLines(cfg: seq<(string, Option<string>)>)
    requires forall e :: e in cfg && e.1.Some? ==> '\n' !in e.1.value
    ensures NoBreaks(CfgLines(CfgEntries(cfg)))
  {
    var es := CfgEntries(cfg);
    forall i | 0 <= i < |es|
      ensures '\n' !in es[i].0 + "=" + es[i].1
    {
      assert es[i] in es;
      CfgKeyPlain(es[i].0);
      assert '\n' !in es[i].1 by {
        assert (es[i].0, Some(es[i].1)) in cfg;
      }
    }
  }

  /** The file, line by line: the `[source]` header and one `key=value`
    * line per written source entry, the `[target]` header and its lines,
    * and the `[general]` header; an empty section leaves an empty line. */
  lemma CfgContentLines(src: seq<(string, Option<string>)>, tgt: seq<(string, Option<string>)>)
    requires forall e :: e in src && e.1.Some? ==> '\n' !in e.1.value
    requires forall e :: e in tgt && e.1.Some? ==> '\n' !in e.1.value
    ensures Split(CfgContent(src, tgt), '\n') ==
            ["[source]"] + Body(CfgLines(CfgEntries(src))) + ["[target]"] + Body(CfgLines(CfgEntries(tgt))) + ["[general]", ""]
  {
    NoNewlineLines(src);
    NoNewlineLines(tgt);
    SectionsSplit(CfgLines(CfgEntries(src)), CfgLines(CfgEntries(tgt)));
  }

  /** Every written line reads back as its entry. */
  lemma CfgLinesReadBack(cfg: seq<(string, Option<string>)>)
    ensures var es := CfgEntries(cfg);
            forall i :: 0 <= i < |es| ==> ParseCfgLine(CfgLines(es)[i]) == es[i]
  {
    var es := CfgEntries(cfg);
    forall i | 0 <= i < |es|
      ensures ParseCfgLine(CfgLines(es)[i]) == es[i]
    {
      LineReadBack(es[i].0, es[i].1, cfg);
    }
  }

  lemma LineReadBack(k: string, v: string, cfg: seq<(string, Option<string>)>)
    requires (k, v) in CfgEntries(cfg)
    ensures ParseCfgLine(k + "=" + v) == (k, v)
  {
    CfgKeyPlain(k);
    IndexOfJoin(k, v, '=');
    assert k + "=" + v == k + ['='] + v;
    assert (k + ['='] + v)[..|k|] == k && (k + ['='] + v)[|k| + 1..] == v;
  }

  // ---------------------------------------------------------------------
  // replicate: the transfer script's arguments

  /** The options of `replicate` that reach the transfer script; `maximum`
    * of 0 or none means no limit, and an option the parser does not
    * define is absent. */
  datatype ReplicateArgs = ReplicateArgs(
    maximum: Option<int>,
    replicateUserAndTimestamp: bool,
    prefixDescription: Option<bool>,
    dryRun: Option<bool>,
    verbose: string)

  predicate Has(o: Option<bool>) { o.Some? && o.value }

  predicate MaximumGiven(args: ReplicateArgs) { args.maximum.Some? && args.maximum.value != 0 }

  /** The `sys.argv` `replicate` builds, step by step: the program name,
    * `-c` and the configuration file, `-m N` when a maximum is given, the
    * flags that are set, and the verbosity last. */
  method ReplicateArgv(progName: string, cfgPath: string, args: ReplicateArgs) returns (argv: seq<string>)
    ensures |argv| >= 5 + (if MaximumGiven(args) then 2 else 0)
    ensures argv[..3] == [progName, "-c", cfgPath]
    ensures MaximumGiven(args) ==> argv[3..5] == ["-m", IntToString(args.maximum.value)]
    ensures !MaximumGiven(args) ==> "-m" !in argv[3..|argv| - 2]
    ensures var k := 3 + (if MaximumGiven(args) then 2 else 0);
            argv[k..|argv| - 2] ==
              (if args.replicateUserAndTimestamp then ["--replicate-user-and-timestamp"] else []) +
              (if Has(args.prefixDescription) then ["--prefix-description-with-replication-info"] else []) +
              (if Has(args.dryRun) then ["--dry-run"] else [])
    ensures argv[|argv| - 2..] == ["--verbose", args.verbose]
  {
    argv := [progName, "-c", cfgPath];
    var k := 3;
    if MaximumGiven(args) {
      argv := argv + ["-m", IntToString(args.maximum.value)];
      k := 5;
    }
    var flags: seq<string> := [];
    if args.replicateUserAndTimestamp {
      flags := flags + ["--replicate-user-and-timestamp"];
    }
    if Has(args.prefixDescription) {
      flags := flags + ["--prefix-description-with-replication-info"];
    }
    if Has(args.dryRun) {
      flags := flags + ["--dry-run"];
    }
    argv := argv + flags;
    assert argv[k..] == flags;
    argv := argv + ["--verbose", args.verbose];
    assert argv[k..|argv| - 2] == flags;
  }
}
