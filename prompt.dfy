/**
 * `getPrompt()` of every generation (cmsh/classes/Shell.js,
 * app/classes/Shell.js and shell.js): `$` when PS1 is not set; otherwise PS1
 * with the first `\u`, then the first `\h`, then the first `\w` replaced by
 * USER, HOSTNAME and the working directory. cmsh shows `~` for the working
 * directory when it is HOME.
 */
module Prompt {
  import opened Wrappers
  import opened Dict
  import opened Text

  /**
   * The prompt for the variables `env`; None where `getPrompt` throws by
   * reading a variable that is not set. `tilde` selects the cmsh version,
   * which reads PWD and HOME before anything else.
   */
  function Prompt(env: Dict<string>, tilde: bool): (p: Option<string>)
    ensures p.Some? <==> (tilde ==> env.Has("PWD") && env.Has("HOME"))
                         && (env.Has("PS1") ==> env.Has("USER") && env.Has("HOSTNAME") && env.Has("PWD"))
    ensures p.Some? && !env.Has("PS1") ==> p.value == "$"
  {
    var pwd := env.Get("PWD");
    if tilde && (pwd.None? || !env.Has("HOME")) then None
    else if !env.Has("PS1") then Some("$")
    else if !env.Has("USER") || !env.Has("HOSTNAME") || pwd.None? then None
    else
      var dir := if tilde && pwd == env.Get("HOME") then "~" else pwd.value;
      Some(ReplaceFirst(ReplaceFirst(ReplaceFirst(env.vals["PS1"], "\\u", env.vals["USER"]), "\\h", env.vals["HOSTNAME"]), "\\w", dir))
  }

  /** The directory the prompt shows. */
  function Dir(env: Dict<string>, tilde: bool): string
    requires env.Has("PWD") && (tilde ==> env.Has("HOME"))
  {
    if tilde && env.vals["PWD"] == env.vals["HOME"] then "~" else env.vals["PWD"]
  }

  /** The pattern does not start anywhere inside `x` in `x + pat + y`: its first occurrence is the one after `x`. */
  predicate FirstAfter(x: string, pat: string, y: string) {
    forall i :: 0 <= i < |x| ==> !(pat <= (x + pat + y)[i..])
  }

  /**
   * A PS1 of the form `a\ub\hc\wd`, where each escape's first occurrence is
   * the intended one (also after the earlier replacements), shows
   * `a USER b HOSTNAME c dir d`.
   */
  lemma PromptFields(env: Dict<string>, tilde: bool, a: string, b: string, c: string, d: string)
    requires env.Has("PS1") && env.Has("USER") && env.Has("HOSTNAME") && env.Has("PWD") && (tilde ==> env.Has("HOME"))
    requires env.vals["PS1"] == a + "\\u" + b + "\\h" + c + "\\w" + d
    requires FirstAfter(a, "\\u", b + "\\h" + c + "\\w" + d)
    requires FirstAfter(a + env.vals["USER"] + b, "\\h", c + "\\w" + d)
    requires FirstAfter(a + env.vals["USER"] + b + env.vals["HOSTNAME"] + c, "\\w", d)
    ensures Prompt(env, tilde) == Some(a + env.vals["USER"] + b + env.vals["HOSTNAME"] + c + Dir(env, tilde) + d)
  {
    var user, host := env.vals["USER"], env.vals["HOSTNAME"];
    UserThenHost(a, b, c, d, user, host);
    ReplaceFirstSplits(a + user + b + host + c, "\\w", d, Dir(env, tilde));
  }

  /** The first two replacements of `getPrompt` on `a\ub\hc\wd`, each at its intended escape. */
  lemma UserThenHost(a: string, b: string, c: string, d: string, user: string, host: string)
    requires FirstAfter(a, "\\u", b + "\\h" + c + "\\w" + d)
    requires FirstAfter(a + user + b, "\\h", c + "\\w" + d)
    ensures ReplaceFirst(ReplaceFirst(a + "\\u" + b + "\\h" + c + "\\w" + d, "\\u", user), "\\h", host)
         == (a + user + b + host + c) + "\\w" + d
  {
    var rest := b + "\\h" + c + "\\w" + d;
    assert a + "\\u" + b + "\\h" + c + "\\w" + d == a + "\\u" + rest;
    ReplaceFirstSplits(a, "\\u", rest, user);
    assert a + user + rest == (a + user + b) + "\\h" + (c + "\\w" + d);
    ReplaceFirstSplits(a + user + b, "\\h", c + "\\w" + d, host);
    assert (a + user + b) + host + (c + "\\w" + d) == (a + user + b + host + c) + "\\w" + d;
  }

  /** Replacing in a string where the pattern's first character does not occur changes nothing. */
  lemma {:induction false} NoStart(s: string, pat: string, rep: string)
    requires pat != [] && pat[0] !in s
    ensures ReplaceFirst(s, pat, rep) == s
    decreases |s|
  {
    if s != [] {
      assert !(pat <= s) by {
        assert s[0] != pat[0];
      }
      NoStart(s[1..], pat, rep);
      assert [s[0]] + s[1..] == s;
    }
  }

  /** A pattern at the start of the string is the one replaced. */
  lemma AtStart(pat: string, rest: string, rep: string)
    ensures ReplaceFirst(pat + rest, pat, rep) == rep + rest
  {
    assert (pat + rest)[|pat|..] == rest;
  }

  /** In cmsh a PS1 of `\w` shows `~` at home; the other generations show the directory itself. */
  lemma TildeAtHome(env: Dict<string>)
    requires env.Has("PS1") && env.Has("USER") && env.Has("HOSTNAME") && env.Has("PWD") && env.Has("HOME")
    requires env.vals["PS1"] == "\\w" && env.vals["PWD"] == env.vals["HOME"]
    ensures Prompt(env, true) == Some("~")
    ensures Prompt(env, false) == Some(env.vals["PWD"])
  {
    assert "\\w"[1] == 'w';
    assert !("\\u" <= "\\w") && !("\\h" <= "\\w") by {
      assert "\\u"[1] != "\\w"[1] && "\\h"[1] != "\\w"[1];
    }
    assert "\\w"[1..] == "w";
    assert "\\u"[0] !in "w" && "\\h"[0] !in "w";
    assert env.Get("PWD") == env.Get("HOME");
    NoStart("w", "\\u", env.vals["USER"]);
    NoStart("w", "\\h", env.vals["HOSTNAME"]);
    assert ReplaceFirst("\\w", "\\u", env.vals["USER"]) == "\\w";
    assert ReplaceFirst("\\w", "\\h", env.vals["HOSTNAME"]) == "\\w";
    AtStart("\\w", [], "~");
    AtStart("\\w", [], env.vals["PWD"]);
    assert "\\w" + [] == "\\w";
    assert ReplaceFirst("\\w", "\\w", "~") == "~";
    assert Prompt(env, true) == Some(ReplaceFirst(ReplaceFirst(ReplaceFirst("\\w", "\\u", env.vals["USER"]), "\\h", env.vals["HOSTNAME"]), "\\w", "~"));
    assert ReplaceFirst("\\w", "\\w", env.vals["PWD"]) == env.vals["PWD"];
    assert Prompt(env, false) == Some(ReplaceFirst(ReplaceFirst(ReplaceFirst("\\w", "\\u", env.vals["USER"]), "\\h", env.vals["HOSTNAME"]), "\\w", env.vals["PWD"]));
  }

  /**
   * The replacements run one after the other on the text so far: a user
   * name that contains `\h` gets the host name in place of it.
   */
  lemma ReplacesInsideUser(env: Dict<string>)
    requires env.Has("PS1") && env.Has("USER") && env.Has("HOSTNAME") && env.Has("PWD")
    requires env.vals["PS1"] == "\\u" && env.vals["USER"] == "\\h" && env.vals["HOSTNAME"] == "box"
    ensures Prompt(env, false) == Some("box")
  {
    AtStart("\\u", [], "\\h");
    AtStart("\\h", [], "box");
    assert "\\u" + [] == "\\u" && "\\h" + [] == "\\h" && "box" + [] == "box";
    NoStart("box", "\\w", env.vals["PWD"]);
  }
}
