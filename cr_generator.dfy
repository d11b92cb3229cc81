/**
 * Writing the EntandoAppV2 custom resource: the fixed metadata, the two
 * values taken from the environment, the `---` document header, and the
 * rewriting that breaks the YAML on purpose when placeholders are left.
 *
 * The environment is a map, the outcome of creating the output file is a
 * parameter, the YAML printer is a function on the resource snapshot, and
 * what is written to the output is returned as a string.
 */
module CrGenerator {
  import opened Wrappers
  import opened Strings
  import opened Resource
  import opened Env

  const DefaultResourceName := "my-app"
  const ApiVersion := "app.entando.org/v1alpha1"
  const EntandoAppResourceName := "EntandoAppV2"
  const EntandoAppNameEnv := "ENTANDO_CLI_APPNAME"
  const EntandoIngressHostNameEnv := "ENTANDO_CLI_INGRESS_HOST_NAME"
  const DocumentHeader := "---\n"

  // ---------------------------------------------------------------------
  // breakSyntax: `("|')(ERROR: .*)("|')` replaced by `$2 # FIXME`

  predicate IsQuote(c: char) { c == '"' || c == '\'' }

  const ErrorPrefix := "ERROR: "

  /** The end of the line that contains position `k`: the next newline, or the end. */
  function LineEnd(s: string, k: nat): (e: nat)
    requires k <= |s|
    decreases |s| - k
    ensures k <= e <= |s| && (e < |s| ==> s[e] == '\n')
    ensures forall i :: k <= i < e ==> s[i] != '\n'
  {
    if k == |s| || s[k] == '\n' then k else LineEnd(s, k + 1)
  }

  /** The last quote in `s[lo..hi]`, if any. */
  function LastQuote(s: string, lo: nat, hi: nat): (r: Option<nat>)
    requires lo <= hi <= |s|
    decreases hi
    ensures r.None? ==> forall i :: lo <= i < hi ==> !IsQuote(s[i])
    ensures r.Some? ==> lo <= r.value < hi && IsQuote(s[r.value])
                        && forall i :: r.value < i < hi ==> !IsQuote(s[i])
  {
    if hi == lo then None
    else if IsQuote(s[hi - 1]) then Some(hi - 1)
    else LastQuote(s, lo, hi - 1)
  }

  /**
   * Where a match that starts at the beginning of `s` ends: a quote, then
   * `ERROR: `, then as much of the line as possible up to a closing quote.
   * There is a match exactly when the line goes on to hold a quote, and the
   * greedy `.*` makes the closing quote the last one on the line.
   */
  function MatchAtStart(s: string): (r: Option<nat>)
    ensures r.None? <==> !(|s| >= 8 && IsQuote(s[0]) && s[1..8] == ErrorPrefix
                           && exists j :: 8 <= j < LineEnd(s, 8) && IsQuote(s[j]))
    ensures r.Some? ==> 8 <= r.value < |s| && IsQuote(s[0]) && s[1..8] == ErrorPrefix && IsQuote(s[r.value])
                        && (forall i :: 1 <= i < r.value ==> s[i] != '\n')
                        && r.value < LineEnd(s, 8)
                        && (forall i :: r.value < i < LineEnd(s, 8) ==> !IsQuote(s[i]))
  {
    if |s| >= 8 && IsQuote(s[0]) && s[1..8] == ErrorPrefix then LastQuote(s, 8, LineEnd(s, 8))
    else None
  }

  /** `breakSyntax`: every match, left to right, loses its quotes and gains ` # FIXME`. */
  function BreakSyntax(s: string): (r: string)
    decreases |s|
    ensures |s| <= |r| <= 2 * |s|
  {
    if s == [] then []
    else match MatchAtStart(s)
      case Some(j) => s[1..j] + " # FIXME" + BreakSyntax(s[j + 1..])
      case None => [s[0]] + BreakSyntax(s[1..])
  }

  /** The rewriting stays within lines: the text keeps all its line breaks. */
  lemma {:induction false} BreakSyntaxKeepsLines(s: string)
    ensures Count(BreakSyntax(s), '\n') == Count(s, '\n')
    decreases |s|
  {
    if s != [] {
      match MatchAtStart(s)
      case Some(j) =>
        var rest := BreakSyntax(s[j + 1..]);
        BreakSyntaxKeepsLines(s[j + 1..]);
        LinesAroundMatch(s, j);
        CountAbsent(" # FIXME", '\n');
        CountAppend(s[1..j], " # FIXME", '\n');
        CountAppend(s[1..j] + " # FIXME", rest, '\n');
      case None =>
        var rest := BreakSyntax(s[1..]);
        BreakSyntaxKeepsLines(s[1..]);
        assert ([s[0]] + rest)[1..] == rest;
    }
  }

  /** A match holds no line break: the breaks of the text are those outside it. */
  lemma LinesAroundMatch(s: string, j: nat)
    requires 1 <= j < |s| && IsQuote(s[0]) && IsQuote(s[j])
    requires forall i :: 1 <= i < j ==> s[i] != '\n'
    ensures Count(s, '\n') == Count(s[1..j], '\n') + Count(s[j + 1..], '\n')
  {
    assert s[1..] == s[1..j] + s[j..];
    CountAppend(s[1..j], s[j..], '\n');
    assert s[j..][1..] == s[j + 1..];
  }

  /** Text with no quote directly followed by `ERROR: ` comes out unchanged. */
  lemma {:induction false} BreakSyntaxWithoutPlaceholder(s: string)
    requires !ContainsSubstring(s, "\"" + ErrorPrefix) && !ContainsSubstring(s, "'" + ErrorPrefix)
    ensures BreakSyntax(s) == s
    decreases |s|
  {
    if s != [] {
      BreakSyntaxWithoutPlaceholder(s[1..]);
      assert s == [s[0]] + s[1..];
    }
  }

  /** Text before the first quote is copied unchanged. */
  lemma {:induction false} BreakSyntaxKeepsPlainPrefix(pre: string, rest: string)
    requires forall i :: 0 <= i < |pre| ==> !IsQuote(pre[i])
    ensures BreakSyntax(pre + rest) == pre + BreakSyntax(rest)
    decreases |pre|
  {
    if pre == [] {
      assert pre + rest == rest;
    } else {
      var s := pre + rest;
      assert s[0] == pre[0] && s[1..] == pre[1..] + rest;
      assert MatchAtStart(s) == None;
      BreakSyntaxKeepsPlainPrefix(pre[1..], rest);
      assert pre == [pre[0]] + pre[1..];
    }
  }

  /**
   * A quoted placeholder at the end of a line loses its quotes and gets
   * ` # FIXME`; the text before it on the line is kept.  The message may
   * itself hold quotes: the match runs to the last quote of the line.
   */
  lemma BreakSyntaxPlaceholderLine(pre: string, q: char, msg: string, q': char, post: string)
    requires forall i :: 0 <= i < |pre| ==> !IsQuote(pre[i])
    requires IsQuote(q) && IsQuote(q')
    requires forall i :: 0 <= i < |msg| ==> msg[i] != '\n'
    requires post == [] || post[0] == '\n'
    ensures BreakSyntax(pre + ([q] + ErrorPrefix + msg + [q'] + post))
            == pre + (ErrorPrefix + msg + " # FIXME" + BreakSyntax(post))
  {
    BreakSyntaxPlaceholderFirst(q, msg, q', post);
    BreakSyntaxKeepsPlainPrefix(pre, [q] + ErrorPrefix + msg + [q'] + post);
  }

  /** A text that starts with a quoted placeholder ending its line. */
  lemma BreakSyntaxPlaceholderFirst(q: char, msg: string, q': char, post: string)
    requires IsQuote(q) && IsQuote(q')
    requires forall i :: 0 <= i < |msg| ==> msg[i] != '\n'
    requires post == [] || post[0] == '\n'
    ensures BreakSyntax([q] + ErrorPrefix + msg + [q'] + post) == ErrorPrefix + msg + " # FIXME" + BreakSyntax(post)
  {
    var s := [q] + ErrorPrefix + msg + [q'] + post;
    var j := 8 + |msg|;
    PlaceholderMatch(q, msg, q', post);
    assert BreakSyntax(s) == s[1..j] + " # FIXME" + BreakSyntax(s[j + 1..]);
  }

  /** The match at the start of a quoted placeholder ends at its closing quote. */
  lemma PlaceholderMatch(q: char, msg: string, q': char, post: string)
    requires IsQuote(q) && IsQuote(q')
    requires forall i :: 0 <= i < |msg| ==> msg[i] != '\n'
    requires post == [] || post[0] == '\n'
    ensures var s := [q] + ErrorPrefix + msg + [q'] + post;
            MatchAtStart(s) == Some(8 + |msg|) && s[1..8 + |msg|] == ErrorPrefix + msg && s[9 + |msg|..] == post
  {
    var s := [q] + ErrorPrefix + msg + [q'] + post;
    var j := 8 + |msg|;
    assert |ErrorPrefix| == 7;
    assert s[1..8] == ErrorPrefix;
    assert s[j] == q';
    forall i | 8 <= i < j ensures s[i] == msg[i - 8] {
    }
    LineEndAt(s, 8, j + 1);
    LastQuoteAt(s, 8, j + 1, j);
    assert s[1..j] == ErrorPrefix + msg;
    assert s[j + 1..] == post;
  }

  /** `LastQuote` finds the quote after which the range holds none. */
  lemma {:induction false} LastQuoteAt(s: string, lo: nat, hi: nat, k: nat)
    requires lo <= k < hi <= |s| && IsQuote(s[k])
    requires forall i :: k < i < hi ==> !IsQuote(s[i])
    ensures LastQuote(s, lo, hi) == Some(k)
    decreases hi
  {
    if k < hi - 1 {
      LastQuoteAt(s, lo, hi - 1, k);
    }
  }

  /** `LineEnd` stops at the first newline from `k` on. */
  lemma {:induction false} LineEndAt(s: string, k: nat, e: nat)
    requires k <= e <= |s| && (e < |s| ==> s[e] == '\n')
    requires forall i :: k <= i < e ==> s[i] != '\n'
    ensures LineEnd(s, k) == e
    decreases e - k
  {
    if k < e {
      LineEndAt(s, k + 1, e);
    }
  }

  /**
   * The last line of a printed resource, such as `imageOverride: "ERROR: <...>"`,
   * becomes `imageOverride: ERROR: <...> # FIXME`.
   */
  lemma BreakSyntaxLastLine(pre: string, msg: string)
    requires forall i :: 0 <= i < |pre| ==> !IsQuote(pre[i])
    requires forall i :: 0 <= i < |msg| ==> msg[i] != '\n'
    ensures BreakSyntax(pre + ("\"" + ErrorPrefix + msg + "\"")) == pre + (ErrorPrefix + msg + " # FIXME")
  {
    var line := "\"" + ErrorPrefix + msg + "\"";
    var fixed := ErrorPrefix + msg + " # FIXME";
    BreakSyntaxPlaceholderLine(pre, '"', msg, '"', []);
    assert line + [] == line;
    assert BreakSyntax([]) == [];
    assert fixed + [] == fixed;
  }

  /**
   * Two placeholders on one line make a single match, from the first quote
   * to the last one; the quotes in between stay, as in
   * `"ERROR: a" "ERROR: b"` becoming `ERROR: a" "ERROR: b # FIXME`.
   */
  lemma BreakSyntaxTwoPlaceholders(a: string, b: string)
    requires Lacks(a, '\n') && Lacks(b, '\n')
    ensures BreakSyntax("\"" + ErrorPrefix + (a + "\" \"" + ErrorPrefix + b) + "\"")
            == ErrorPrefix + (a + "\" \"" + ErrorPrefix + b) + " # FIXME"
  {
    var msg := a + "\" \"" + ErrorPrefix + b;
    LacksConcat(a, "\" \"", '\n');
    LacksConcat(a + "\" \"", ErrorPrefix, '\n');
    LacksConcat(a + "\" \"" + ErrorPrefix, b, '\n');
    BreakSyntaxLastLine("", msg);
    assert "" + ("\"" + ErrorPrefix + msg + "\"") == "\"" + ErrorPrefix + msg + "\"";
    assert "" + (ErrorPrefix + msg + " # FIXME") == ErrorPrefix + msg + " # FIXME";
  }

  // ---------------------------------------------------------------------
  // GenerateCustomResource

  /** What `GenerateCustomResource` leaves behind: the resource, the error, the text written. */
  datatype Generated = Generated(state: AppState, err: Option<string>, written: string)

  /** The resource with the fixed metadata. */
  function WithMetadata(st: AppState): AppState
  {
    st.(apiVersion := ApiVersion, kind := EntandoAppResourceName, name := DefaultResourceName)
  }

  /** `GenerateCustomResource` on values. */
  function GenerateSpec(fileName: string, st: AppState, needsFix: bool, env: map<string, string>,
                        createError: Option<string>, printer: AppState -> Result<string>): (g: Generated)
    ensures g.state.apiVersion == ApiVersion && g.state.kind == EntandoAppResourceName
            && g.state.name == DefaultResourceName
    ensures forall s :: g.state.Override(s) == st.Override(s)
    ensures g.state.version == st.version
    ensures g.written == "" || HasPrefix(g.written, DocumentHeader)
    ensures Getenv(env, EntandoAppNameEnv) == "" ==>
              g.err == Some(MissingEnvMessage(EntandoAppNameEnv)) && g.written == ""
    ensures Getenv(env, EntandoAppNameEnv) != "" && Getenv(env, EntandoIngressHostNameEnv) == "" ==>
              g.err == Some(MissingEnvMessage(EntandoIngressHostNameEnv)) && g.written == ""
    ensures Getenv(env, EntandoAppNameEnv) != "" && Getenv(env, EntandoIngressHostNameEnv) != "" ==>
              g.state.entandoAppName == Getenv(env, EntandoAppNameEnv)
              && g.state.ingressHostName == Getenv(env, EntandoIngressHostNameEnv)
    ensures Getenv(env, EntandoAppNameEnv) != "" && Getenv(env, EntandoIngressHostNameEnv) != ""
            && fileName != "" && createError.Some? ==>
              g.err == Some("unable to create file " + fileName + ". " + createError.value) && g.written == ""
    ensures Getenv(env, EntandoAppNameEnv) != "" && Getenv(env, EntandoIngressHostNameEnv) != ""
            && (fileName == "" || createError.None?) ==>
              (g.err == None <==> printer(g.state).Ok?)
              && (printer(g.state).Err? ==>
                    g.err == Some("unable to generate EntandoAppV2 manifest. " + printer(g.state).msg)
                    && g.written == DocumentHeader)
    ensures g.err == None ==>
              g.state.entandoAppName == Getenv(env, EntandoAppNameEnv) != ""
              && g.state.ingressHostName == Getenv(env, EntandoIngressHostNameEnv) != ""
              && printer(g.state).Ok?
              && g.written == DocumentHeader + (if needsFix then BreakSyntax(printer(g.state).value)
                                                else printer(g.state).value)
  {
    var st1 := WithMetadata(st);
    var appName := Getenv(env, EntandoAppNameEnv);
    if appName == "" then Generated(st1, Some(MissingEnvMessage(EntandoAppNameEnv)), "")
    else
      var st2 := st1.(entandoAppName := appName);
      var host := Getenv(env, EntandoIngressHostNameEnv);
      if host == "" then Generated(st2, Some(MissingEnvMessage(EntandoIngressHostNameEnv)), "")
      else
        var st3 := st2.(ingressHostName := host);
        if fileName != "" && createError.Some? then
          Generated(st3, Some("unable to create file " + fileName + ". " + createError.value), "")
        else match printer(st3)
          case Err(e) => Generated(st3, Some("unable to generate EntandoAppV2 manifest. " + e), DocumentHeader)
          case Ok(yaml) =>
            Generated(st3, None, DocumentHeader + (if needsFix then BreakSyntax(yaml) else yaml))
  }

  /**
   * `GenerateCustomResource`: sets the metadata and the environment values on
   * the resource, then writes the header and the printed resource.
   */
  method GenerateCustomResource(fileName: string, app: EntandoAppV2, needsFix: bool, env: map<string, string>,
                                createError: Option<string>, printer: AppState -> Result<string>)
    returns (err: Option<string>, written: string)
    modifies app
    ensures var g := GenerateSpec(fileName, old(app.State()), needsFix, env, createError, printer);
            app.State() == g.state && err == g.err && written == g.written
  {
    ghost var st := app.State();
    app.apiVersion := ApiVersion;
    app.kind := EntandoAppResourceName;
    app.name := DefaultResourceName;
    ghost var st1 := WithMetadata(st);
    assert app.State() == st1;
    written := "";

    var entandoAppName := Getenv(env, EntandoAppNameEnv);
    if entandoAppName == "" {
      return Some(MissingEnvMessage(EntandoAppNameEnv)), written;
    }
    app.entandoAppName := entandoAppName;
    ghost var st2 := st1.(entandoAppName := entandoAppName);
    assert app.State() == st2;

    var ingressHostName := Getenv(env, EntandoIngressHostNameEnv);
    if ingressHostName == "" {
      return Some(MissingEnvMessage(EntandoIngressHostNameEnv)), written;
    }
    app.ingressHostName := ingressHostName;
    ghost var st3 := st2.(ingressHostName := ingressHostName);
    assert app.State() == st3;

    if fileName != "" && createError.Some? {
      return Some("unable to create file " + fileName + ". " + createError.value), written;
    }

    written := written + DocumentHeader;
    assert written == DocumentHeader;

    var buffer := printer(app.State());
    if buffer.Err? {
      return Some("unable to generate EntandoAppV2 manifest. " + buffer.msg), written;
    }

    if needsFix {
      written := written + BreakSyntax(buffer.value);
    } else {
      written := written + buffer.value;
    }
    return None, written;
  }

  /**
   * Fixing the syntax changes nothing when the printed resource holds no
   * quoted placeholder: with and without `needsFix` the outcome is the same.
   */
  lemma FixHarmlessWithoutPlaceholder(fileName: string, st: AppState, env: map<string, string>,
                                      createError: Option<string>, printer: AppState -> Result<string>)
    requires var printed := printer(GenerateSpec(fileName, st, false, env, createError, printer).state);
             printed.Ok? ==> (!ContainsSubstring(printed.value, "\"" + ErrorPrefix)
                              && !ContainsSubstring(printed.value, "'" + ErrorPrefix))
    ensures GenerateSpec(fileName, st, true, env, createError, printer)
            == GenerateSpec(fileName, st, false, env, createError, printer)
  {
    var printed := printer(GenerateSpec(fileName, st, false, env, createError, printer).state);
    if printed.Ok? {
      BreakSyntaxWithoutPlaceholder(printed.value);
    }
  }
}
