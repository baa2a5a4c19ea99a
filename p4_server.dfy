/** The Perforce connection wrapper (lib/p4server.py): the temporary
  * workspace it creates for a replication run, and how it decides that a
  * server runs in unicode mode.
  *
  * The Perforce client library is not modelled: what the server answers is
  * given as data and what is sent to it is recorded as commands. */
module P4Server {
  import opened Common
  import opened Strings

  /** One entry of a workspace mapping: a `WorkspaceMapping(depot_dir,
    * rel_dir)` tuple, or a value of any other type. */
  datatype MappingArg = WsMapping(depotDir: string, relDir: string) | NotMapping

  /** The line-end settings Perforce accepts for a workspace. */
  const LineEnds: set<string> := {"local", "share", "unix", "win"}

  const WorkspaceOptions := "noallwrite noclobber nocompress unlocked nomodtime normdir"

  predicate AllMappings(ms: seq<MappingArg>) { forall i :: 0 <= i < |ms| ==> ms[i].WsMapping? }

  predicate AllRelative(ms: seq<MappingArg>)
    requires AllMappings(ms)
  {
    forall i :: 0 <= i < |ms| ==> StartsWith(ms[i].relDir, "./")
  }

  /** The name of the temporary workspace. */
  function WorkspaceName(user: string, host: string, uniqueId: string): string
  {
    user + "_" + host + "_replication-script_" + uniqueId
  }

  /** `s[1:]`, which is empty for an empty string. */
  function DropFirst(s: string): string { if s == [] then [] else s[1..] }

  /** One line of the view: the depot path, three blanks, and the
    * workspace path under `//<name>`. */
  function ViewLine(name: string, m: MappingArg): string
    requires m.WsMapping?
  {
    "\t" + m.depotDir + "   //" + name + DropFirst(m.relDir) + "\n"
  }

  function View(name: string, ms: seq<MappingArg>): string
    requires AllMappings(ms)
  {
    if ms == [] then [] else ViewLine(name, ms[0]) + View(name, ms[1..])
  }

  predicate StreamGiven(stream: Option<string>) { stream.Some? && stream.value != "" }

  /** The fields of the workspace spec, in the order they are set: with a
    * stream the spec names the stream instead of a view. */
  function SpecFields(name: string, user: string, lineEnd: string, root: string, view: string, stream: Option<string>): seq<(string, string)>
  {
    [("Client", name), ("Description", "Temp workspace created for replication"), ("Owner", user),
     ("LineEnd", lineEnd), ("Root", root), ("Options", WorkspaceOptions)]
    + (if StreamGiven(stream) then [("Stream", stream.value)] else [("View", view)])
  }

  function FieldLines(fields: seq<(string, string)>): (r: seq<string>)
    ensures |r| == |fields|
    ensures forall i :: 0 <= i < |r| ==> r[i] == fields[i].0 + ": " + fields[i].1
  {
    if fields == [] then [] else [fields[0].0 + ": " + fields[0].1] + FieldLines(fields[1..])
  }

  /** The spec text handed to `p4 client -i`. */
  function SpecText(fields: seq<(string, string)>): string
  {
    Join(FieldLines(fields), "\n")
  }

  /** The checks and the spec building of `create_workspace`: the
    * workspace name and spec text, or the exception it raises. `shown` is
    * the repr of the mapping argument, which the mapping-format message
    * ends with. */
  function WorkspaceSpec(user: string, host: string, ms: seq<MappingArg>, shown: string, root: string, uniqueId: string,
                         lineEnd: string, stream: Option<string>): Result<(string, string)>
  {
    if !AllMappings(ms) then Raise(PlainException, "Invalid workspace mapping format " + shown)
    else if !AllRelative(ms) then Raise(PlainException, "right-hand map should be relative path to ws root")
    else if lineEnd !in LineEnds then Raise(PlainException, "probably not correct line end " + lineEnd)
    else
      var name := WorkspaceName(user, host, uniqueId);
      Ok((name, SpecText(SpecFields(name, user, lineEnd, root, View(name, ms), stream))))
  }

  /** A workspace is made exactly when every entry is a mapping, every
    * right-hand side is relative to the root, and the line end is one
    * Perforce knows; the checks are made in that order. */
  lemma WorkspaceSpecChecks(user: string, host: string, ms: seq<MappingArg>, shown: string, root: string, uniqueId: string,
                            lineEnd: string, stream: Option<string>)
    ensures var r := WorkspaceSpec(user, host, ms, shown, root, uniqueId, lineEnd, stream);
            (r.Ok? <==> AllMappings(ms) && AllRelative(ms) && lineEnd in LineEnds) &&
            (r.Err? ==> r.exc.kind == PlainException) &&
            (!AllMappings(ms) ==> r.exc.msg == "Invalid workspace mapping format " + shown) &&
            (AllMappings(ms) && !AllRelative(ms) ==> r.exc.msg == "right-hand map should be relative path to ws root") &&
            (AllMappings(ms) && AllRelative(ms) && lineEnd !in LineEnds ==> r.exc.msg == "probably not correct line end " + lineEnd) &&
            (r.Ok? ==> r.value.0 == WorkspaceName(user, host, uniqueId))
  {
  }

  /** With a stream the spec names it and has no view; without one it has
    * the view and no stream. The other fields are the same either way. */
  lemma StreamReplacesView(name: string, user: string, lineEnd: string, root: string, view: string, stream: Option<string>)
    ensures var f := SpecFields(name, user, lineEnd, root, view, stream);
            |f| == 7 && f[..6] == SpecFields(name, user, lineEnd, root, view, None)[..6] &&
            (forall i :: 0 <= i < 6 ==> f[i].0 != "View" && f[i].0 != "Stream") &&
            (StreamGiven(stream) ==> f[6] == ("Stream", stream.value)) &&
            (!StreamGiven(stream) ==> f[6] == ("View", view))
  {
  }

  /** A mapping entry as the workspace sees it: the depot path, and the
    * workspace path under `//<name>/`. */
  function ViewEntry(name: string, m: MappingArg): string
    requires m.WsMapping? && StartsWith(m.relDir, "./")
  {
    "\t" + m.depotDir + "   //" + name + "/" + m.relDir[2..]
  }

  function ViewEntries(name: string, ms: seq<MappingArg>): (r: seq<string>)
    requires AllMappings(ms) && AllRelative(ms)
    ensures |r| == |ms| && forall i :: 0 <= i < |ms| ==> r[i] == ViewEntry(name, ms[i])
  {
    if ms == [] then [] else [ViewEntry(name, ms[0])] + ViewEntries(name, ms[1..])
  }

  /** The view has one line per mapping, in order, each mapping the depot
    * path to `//<name>/` followed by the path relative to the root. */
  lemma {:induction false} ViewLines(name: string, ms: seq<MappingArg>)
    requires AllMappings(ms) && AllRelative(ms)
    requires '\n' !in name
    requires forall i :: 0 <= i < |ms| ==> '\n' !in ms[i].depotDir && '\n' !in ms[i].relDir
    ensures Split(View(name, ms), '\n') == ViewEntries(name, ms) + [""]
  {
    if ms != [] {
      var e := ViewEntry(name, ms[0]);
      var rest := View(name, ms[1..]);
      assert ViewLine(name, ms[0]) == e + "\n" by {
        assert DropFirst(ms[0].relDir) == "/" + ms[0].relDir[2..];
      }
      assert '\n' !in e by {
        assert '\n' !in ms[0].relDir[2..] by {
          forall i | 0 <= i < |ms[0].relDir[2..]| ensures ms[0].relDir[2..][i] != '\n' {
            assert ms[0].relDir[2..][i] == ms[0].relDir[i + 2];
          }
        }
      }
      assert View(name, ms) == e + ['\n'] + rest;
      SplitAppend(e, rest, '\n');
      SplitNoSep(e, '\n');
      ViewLines(name, ms[1..]);
    }
  }

  /** The character sets `try_login` switches to, by locale encoding. */
  const LocaleToP4Charset: map<string, string> := map["cp1251" := "cp1251", "utf-8" := "utf8"]

  const UnicodeOnly := "Unicode server permits only unicode enabled clients"

  /** A connection to one Perforce server, with the fields the replication
    * scripts set on it. */
  class Server {
    var user: string
    var charset: string
    var input: string
    var cwd: string
    var client: string
    var cmds: seq<Cmd>

    constructor(user: string)
      ensures this.user == user && charset == "none" && input == "" && cwd == "" && client == "" && cmds == []
    {
      this.user := user;
      charset := "none";
      input := "";
      cwd := "";
      client := "";
      cmds := [];
    }

    /** `is_unicode_server`: the connection has a character set. */
    predicate IsUnicodeServer()
      reads this
    {
      charset != "none"
    }

    /** `try_login`: a login refused because the server is unicode is
      * retried once with the character set of the local encoding;
      * `first` and `second` are the errors of the two logins, if any. */
    method TryLogin(first: Option<string>, second: Option<string>, localeEncoding: string) returns (r: Result<()>)
      modifies this
      ensures user == old(user) && input == old(input) && cwd == old(cwd) && client == old(client)
      ensures first.None? ==> r == Ok(()) && charset == old(charset) && cmds == old(cmds) + [Cmd("login", [])]
      ensures first.Some? && !Contains(first.value, UnicodeOnly) ==>
                r == Raise(P4Exception, first.value) && charset == old(charset) && cmds == old(cmds) + [Cmd("login", [])]
      ensures first.Some? && Contains(first.value, UnicodeOnly) && Lower(localeEncoding) !in LocaleToP4Charset ==>
                r == Raise(KeyError, Lower(localeEncoding)) && charset == old(charset) && cmds == old(cmds) + [Cmd("login", [])]
      ensures first.Some? && Contains(first.value, UnicodeOnly) && Lower(localeEncoding) in LocaleToP4Charset ==>
                charset == LocaleToP4Charset[Lower(localeEncoding)] && IsUnicodeServer() &&
                cmds == old(cmds) + [Cmd("login", []), Cmd("login", [])] &&
                r == (if second.None? then Ok(()) else Raise(P4Exception, second.value))
    {
      cmds := cmds + [Cmd("login", [])];
      if first.None? {
        return Ok(());
      }
      if !Contains(first.value, UnicodeOnly) {
        return Raise(P4Exception, first.value);
      }
      var enc := Lower(localeEncoding);
      if enc !in LocaleToP4Charset {
        return Raise(KeyError, enc);
      }
      charset := LocaleToP4Charset[enc];
      cmds := cmds + [Cmd("login", [])];
      r := if second.None? then Ok(()) else Raise(P4Exception, second.value);
    }

    /** `create_workspace`: `shown` stands for the repr of the mapping
      * argument, `osCwd` for the current directory, used
      * when no root is given, `randomId` for the random suffix used when no
      * unique id is given, and `host` for the host name. On success the
      * spec is sent with `p4 client -i`, the workspace becomes the
      * connection's client and its root the working directory, and the
      * stream, if any, is switched to. */
    method CreateWorkspace(ms: seq<MappingArg>, shown: string, wsRoot: string, uniqueId: string, lineEnd: string, stream: Option<string>,
                           osCwd: string, randomId: string, host: string) returns (r: Result<string>)
      modifies this
      ensures var root := if wsRoot == "" then osCwd else wsRoot;
              var id := if uniqueId == "" then randomId else uniqueId;
              var spec := WorkspaceSpec(user, host, ms, shown, root, id, lineEnd, stream);
              user == old(user) && charset == old(charset) &&
              (spec.Err? ==> r == Err(spec.exc) && input == old(input) && cwd == old(cwd) &&
                             client == old(client) && cmds == old(cmds)) &&
              (spec.Ok? ==> r == Ok(spec.value.0) && input == spec.value.1 && cwd == root && client == spec.value.0 &&
                            cmds == old(cmds) + [Cmd("client", ["-i"])] +
                                    (if StreamGiven(stream) then [Cmd("switch", [stream.value])] else []))
    {
      var root := if wsRoot == "" then osCwd else wsRoot;
      var id := if uniqueId == "" then randomId else uniqueId;
      var spec := WorkspaceSpec(user, host, ms, shown, root, id, lineEnd, stream);
      if spec.Err? {
        return Err(spec.exc);
      }
      input := spec.value.1;
      cmds := cmds + [Cmd("client", ["-i"])];
      cwd := root;
      client := spec.value.0;
      if StreamGiven(stream) {
        // a failing switch is ignored
        cmds := cmds + [Cmd("switch", [stream.value])];
      }
      r := Ok(spec.value.0);
    }
  }
}
