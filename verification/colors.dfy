/**
 * gambaterm/colors.py: the colour-capability classifier. The environment is
 * a map from variable names to values; a missing variable reads as "" and
 * every value is lowercased before it is looked at. The terminal probe for
 * direct colour is reduced to the predicate on the reply it reads.
 */
module Colors {
  import opened Common

  /** ColorMode, an ordered enumeration. */
  datatype ColorMode = NoColor | Has2BitColor | Has4BitColor | Has8BitColor | Has24BitColor
  {
    /** The IntEnum value. */
    function Level(): (n: nat)
      ensures n <= 4
      ensures n == 0 <==> NoColor?
      ensures n == 4 <==> Has24BitColor?
    {
      match this
      case NoColor => 0
      case Has2BitColor => 1
      case Has4BitColor => 2
      case Has8BitColor => 3
      case Has24BitColor => 4
    }
  }

  /** BASIC_TERMINALS. */
  const BasicTerminals: seq<string> := ["screen", "xterm", "vt100", "vt220", "rxvt", "color", "ansi", "cygwin", "linux"]

  /** `needle` occurs in `hay` at position i. */
  predicate OccursAt(hay: string, needle: string, i: int)
  {
    0 <= i && i + |needle| <= |hay| && hay[i..i + |needle|] == needle
  }

  /** Python's `needle in hay` on strings. */
  predicate Contains(hay: string, needle: string)
  {
    exists i :: 0 <= i <= |hay| && OccursAt(hay, needle, i)
  }

  /** A substring stays a substring when text is added on either side. */
  lemma {:induction false} ContainsExtend(a: string, hay: string, b: string, needle: string)
    requires Contains(hay, needle)
    ensures Contains(a + hay + b, needle)
  {
    var i :| 0 <= i <= |hay| && OccursAt(hay, needle, i);
    assert (a + hay + b)[|a| + i..|a| + i + |needle|] == needle;
    assert OccursAt(a + hay + b, needle, |a| + i);
  }

  /** `env.get(name, "").lower()`. */
  function Var(env: map<string, string>, name: string): string
  {
    Lower(if name in env then env[name] else "")
  }

  /** Whitespace that Python's `int()` strips, restricted to ASCII. */
  predicate IsSpace(c: char)
  {
    c == ' ' || ('\t' <= c <= '\r') || ('\U{1C}' <= c <= '\U{1F}')
  }

  /** Every character of s is whitespace. */
  predicate AllSpace(s: string)
  {
    forall i :: 0 <= i < |s| ==> IsSpace(s[i])
  }

  /** r is s[a..b] with only whitespace cut off in front of a and after b. */
  predicate CutAt(s: string, r: string, a: nat, b: nat)
  {
    a <= b <= |s| && r == s[a..b] && AllSpace(s[..a]) && AllSpace(s[b..])
  }

  /** r is what is left of s once some surrounding whitespace is cut off. */
  ghost predicate Trimmed(s: string, r: string)
  {
    exists a: nat, b: nat :: CutAt(s, r, a, b)
  }

  /** `s.strip()`: s without its leading and trailing whitespace. */
  function Strip(s: string): (r: string)
    ensures |r| <= |s|
    ensures r == [] || (!IsSpace(r[0]) && !IsSpace(r[|r| - 1]))
    decreases |s|
  {
    if |s| > 0 && IsSpace(s[0]) then Strip(s[1..])
    else if |s| > 0 && IsSpace(s[|s| - 1]) then Strip(s[..|s| - 1])
    else s
  }

  /** Cutting one more blank off the front keeps a trimmed remainder trimmed. */
  lemma {:induction false} TrimFront(s: string, r: string, a: nat, b: nat)
    requires |s| > 0 && IsSpace(s[0]) && CutAt(s[1..], r, a, b)
    ensures CutAt(s, r, a + 1, b + 1)
  {
    var t := s[1..];
    assert s[..a + 1] == [s[0]] + t[..a];
    assert s[a + 1..b + 1] == t[a..b];
    assert s[b + 1..] == t[b..];
  }

  /** Cutting one more blank off the back keeps a trimmed remainder trimmed. */
  lemma {:induction false} TrimBack(s: string, r: string, a: nat, b: nat)
    requires |s| > 0 && IsSpace(s[|s| - 1]) && CutAt(s[..|s| - 1], r, a, b)
    ensures CutAt(s, r, a, b)
  {
    var t := s[..|s| - 1];
    assert s[..a] == t[..a] && s[a..b] == t[a..b];
    assert s[b..] == t[b..] + [s[|s| - 1]];
  }

  /** Strip cuts nothing but whitespace: what it keeps is a slice of s with only blanks outside it. */
  lemma {:induction false} StripTrims(s: string)
    ensures Trimmed(s, Strip(s))
    decreases |s|
  {
    var r := Strip(s);
    if |s| > 0 && IsSpace(s[0]) {
      StripTrims(s[1..]);
      var a: nat, b: nat :| CutAt(s[1..], r, a, b);
      TrimFront(s, r, a, b);
    } else if |s| > 0 && IsSpace(s[|s| - 1]) {
      StripTrims(s[..|s| - 1]);
      var a: nat, b: nat :| CutAt(s[..|s| - 1], r, a, b);
      TrimBack(s, r, a, b);
    } else {
      assert CutAt(s, s, 0, |s|);
    }
  }

  predicate IsDigit(c: char)
  {
    '0' <= c <= '9'
  }

  /** A decimal literal as `int()` accepts it: digits, with single underscores between digits. */
  predicate WellFormedDigits(s: string)
  {
    |s| > 0 && IsDigit(s[0]) && forall i :: 0 <= i < |s| ==> DigitOrJoiner(s, i)
  }

  /** Position i holds a digit, or an underscore followed by a digit. */
  predicate DigitOrJoiner(s: string, i: nat)
    requires i < |s|
  {
    IsDigit(s[i]) || (s[i] == '_' && i + 1 < |s| && IsDigit(s[i + 1]))
  }

  /** One character that is neither a digit nor an underscore before a digit makes the literal malformed. */
  lemma RejectedAt(s: string, i: nat)
    requires i < |s| && !IsDigit(s[i]) && !(s[i] == '_' && i + 1 < |s| && IsDigit(s[i + 1]))
    ensures !WellFormedDigits(s)
  {
    assert !DigitOrJoiner(s, i);
  }

  /** The value of the digits of s, underscores skipped. */
  function DigitsValue(s: string): nat
  {
    if s == [] then 0
    else if IsDigit(s[|s| - 1]) then DigitsValue(s[..|s| - 1]) * 10 + (s[|s| - 1] as int - '0' as int)
    else DigitsValue(s[..|s| - 1])
  }

  /** Python's `int(s)` in base 10: Some(value), or None where it raises ValueError. */
  function ParseInt(s: string): (r: Option<int>)
    ensures Strip(s) == [] ==> r.None?
  {
    var t := Strip(s);
    var signed := |t| > 0 && (t[0] == '+' || t[0] == '-');
    var body := if signed then t[1..] else t;
    if !WellFormedDigits(body) then None
    else
      var magnitude: int := DigitsValue(body);
      Some(if signed && t[0] == '-' then -magnitude else magnitude)
  }

  /** The digits of a number read back as that number. */
  lemma {:induction false} DigitsValueOfString(n: nat)
    ensures DigitsValue(NatToString(n)) == n
    ensures WellFormedDigits(NatToString(n))
  {
    var s := NatToString(n);
    if n >= 10 {
      DigitsValueOfString(n / 10);
      assert s[..|s| - 1] == NatToString(n / 10);
    }
    forall i | 0 <= i < |s|
      ensures DigitOrJoiner(s, i)
    {
    }
  }

  /** `int(str(n)) == n`: the parser inverts decimal formatting. */
  lemma {:induction false} ParseIntOfString(n: nat)
    ensures ParseInt(NatToString(n)) == Some(n)
  {
    var s := NatToString(n);
    DigitsValueOfString(n);
    assert !IsSpace(s[0]) && !IsSpace(s[|s| - 1]);
    assert Strip(s) == s;
  }

  /** `s.split(".")[0]`: the text before the first dot. */
  function BeforeDot(s: string): (r: string)
    ensures |r| <= |s| && r == s[..|r|]
    ensures '.' !in r
    ensures r == s || s[|r|] == '.'
  {
    if s == [] || s[0] == '.' then [] else [s[0]] + BeforeDot(s[1..])
  }

  /** The major version of iTerm, as detect_color_mode reads it. */
  function ITermMajor(version: string): Option<int>
  {
    ParseInt(BeforeDot(version))
  }

  /** Some TERM substring names a basic terminal. */
  predicate NamesBasicTerminal(term: string)
  {
    exists j :: 0 <= j < |BasicTerminals| && Contains(term, BasicTerminals[j])
  }

  /** The decision chain of detect_color_mode on the lowercased variables. */
  function Classify(term: string, colorterm: string, termProgram: string, termProgramVersion: string,
                    conEmuAnsi: string): (r: ColorMode)
    ensures r != Has2BitColor
  {
    if Contains(colorterm, "truecolor") || Contains(colorterm, "24bit") then Has24BitColor
    else if conEmuAnsi == "on" then Has24BitColor
    else if termProgram == "apple_terminal" then Has8BitColor
    else if termProgram == "iterm.app" then
      match ITermMajor(termProgramVersion)
      case None => Has8BitColor
      case Some(version) => if version < 3 then Has8BitColor else Has24BitColor
    else if Contains(term, "256") || Contains(colorterm, "256") then Has8BitColor
    else if NamesBasicTerminal(term) then Has4BitColor
    else if colorterm != "" then Has4BitColor
    else NoColor
  }

  /** detect_color_mode. */
  function DetectColorMode(env: map<string, string>): (r: ColorMode)
    ensures r != Has2BitColor
  {
    Classify(Var(env, "TERM"), Var(env, "COLORTERM"), Var(env, "TERM_PROGRAM"),
             Var(env, "TERM_PROGRAM_VERSION"), Var(env, "ConEmuANSI"))
  }

  /** A COLORTERM announcing direct colour wins over every other variable. */
  lemma TrueColorWins(env: map<string, string>)
    requires Contains(Var(env, "COLORTERM"), "truecolor") || Contains(Var(env, "COLORTERM"), "24bit")
    ensures DetectColorMode(env) == Has24BitColor
  {
  }

  /** ConEmuANSI set to "on", in any case, gives direct colour. */
  lemma ConEmuOn(env: map<string, string>)
    requires "ConEmuANSI" in env && Lower(env["ConEmuANSI"]) == "on"
    ensures DetectColorMode(env) == Has24BitColor
  {
  }

  /** Apple's terminal gets 256 colours unless COLORTERM or ConEmuANSI already decided. */
  lemma AppleTerminal(env: map<string, string>)
    requires !Contains(Var(env, "COLORTERM"), "truecolor") && !Contains(Var(env, "COLORTERM"), "24bit")
    requires Var(env, "ConEmuANSI") != "on"
    requires Var(env, "TERM_PROGRAM") == "apple_terminal"
    ensures DetectColorMode(env) == Has8BitColor
  {
  }

  /** iTerm: direct colour from major version 3 on; older or unreadable versions get 256 colours. */
  lemma ITerm(env: map<string, string>)
    requires !Contains(Var(env, "COLORTERM"), "truecolor") && !Contains(Var(env, "COLORTERM"), "24bit")
    requires Var(env, "ConEmuANSI") != "on"
    requires Var(env, "TERM_PROGRAM") == "iterm.app"
    ensures var major := ITermMajor(Var(env, "TERM_PROGRAM_VERSION"));
            DetectColorMode(env) == (if major.Some? && major.value >= 3 then Has24BitColor else Has8BitColor)
  {
  }

  /** Text made only of whitespace strips to nothing. */
  lemma {:induction false} StripBlank(s: string)
    requires AllSpace(s)
    ensures Strip(s) == []
  {
    StripTrims(s);
  }

  /** Leading whitespace does not change what strip keeps. */
  lemma {:induction false} StripFront(pre: string, t: string)
    requires AllSpace(pre)
    ensures Strip(pre + t) == Strip(t)
    decreases |pre|
  {
    if pre != [] {
      var u := pre + t;
      assert u[0] == pre[0];
      assert u[1..] == pre[1..] + t;
      assert Strip(u) == Strip(u[1..]);
      StripFront(pre[1..], t);
    } else {
      assert pre + t == t;
    }
  }

  /** Trailing whitespace does not change what strip keeps. */
  lemma {:induction false} StripBack(t: string, post: string)
    requires AllSpace(post)
    ensures Strip(t + post) == Strip(t)
    decreases |t| + |post|
  {
    var u := t + post;
    if t == [] {
      assert u == post;
      StripBlank(post);
    } else if IsSpace(t[0]) {
      assert u[0] == t[0];
      assert u[1..] == t[1..] + post;
      assert Strip(u) == Strip(u[1..]);
      assert Strip(t) == Strip(t[1..]);
      StripBack(t[1..], post);
    } else if post != [] {
      var last := post[..|post| - 1];
      assert u[0] == t[0] && u[|u| - 1] == post[|post| - 1];
      assert u[..|u| - 1] == t + last;
      assert Strip(u) == Strip(t + last);
      StripBack(t, last);
    } else {
      assert u == t;
    }
  }

  /** `int()` ignores blanks around the literal. */
  lemma {:induction false} BlanksStripped(pre: string, s: string, post: string)
    requires AllSpace(pre) && AllSpace(post)
    ensures ParseInt(pre + s + post) == ParseInt(s)
  {
    assert pre + s + post == pre + (s + post);
    StripFront(pre, s + post);
    StripBack(s, post);
  }

  /** Underscores are skipped when digits are summed up. */
  lemma {:induction false} DigitsValueSkip(x: string, y: string)
    ensures DigitsValue(x + "_" + y) == DigitsValue(x + y)
    decreases |y|
  {
    var u, v := x + "_" + y, x + y;
    if y == [] {
      assert u[..|u| - 1] == x && v == x;
    } else {
      var n := |y|;
      assert u[|u| - 1] == y[n - 1] && v[|v| - 1] == y[n - 1];
      assert u[..|u| - 1] == x + "_" + y[..n - 1];
      assert v[..|v| - 1] == x + y[..n - 1];
      DigitsValueSkip(x, y[..n - 1]);
    }
  }

  /** A well-formed literal always ends in a digit. */
  lemma {:induction false} EndsInDigit(s: string)
    requires WellFormedDigits(s)
    ensures IsDigit(s[|s| - 1])
  {
    assert DigitOrJoiner(s, |s| - 1);
  }

  /** An underscore joining two well-formed literals is a separator: the value is that of the digits alone. */
  lemma {:induction false} UnderscoreSkipped(a: string, b: string)
    requires WellFormedDigits(a) && WellFormedDigits(b)
    ensures WellFormedDigits(a + "_" + b)
    ensures DigitsValue(a + "_" + b) == DigitsValue(a + b)
  {
    var w := a + "_" + b;
    EndsInDigit(a);
    forall i | 0 <= i < |w|
      ensures DigitOrJoiner(w, i)
    {
      if i < |a| {
        assert DigitOrJoiner(a, i);
        assert w[i] == a[i];
        if i + 1 < |a| {
          assert w[i + 1] == a[i + 1];
        }
      } else if i == |a| {
        assert w[i + 1] == b[0];
      } else {
        assert DigitOrJoiner(b, i - |a| - 1);
        assert w[i] == b[i - |a| - 1];
        if i + 1 < |w| {
          assert w[i + 1] == b[i - |a|];
        }
      }
    }
    DigitsValueSkip(a, b);
  }

  /** `int()` of a well-formed literal is the value of its digits. */
  lemma {:induction false} ParseDigits(w: string)
    requires WellFormedDigits(w)
    ensures ParseInt(w) == Some(DigitsValue(w))
  {
    EndsInDigit(w);
    assert !IsSpace(w[0]) && !IsSpace(w[|w| - 1]);
    assert Strip(w) == w;
  }

  /** The text before the first dot of a dot-free text followed by a dot. */
  lemma {:induction false} BeforeDotCut(s: string, rest: string)
    requires '.' !in s
    ensures BeforeDot(s + "." + rest) == s
    decreases |s|
  {
    var u := s + "." + rest;
    if s == [] {
      assert u[0] == '.';
    } else {
      assert u[0] == s[0];
      assert u[1..] == s[1..] + "." + rest;
      BeforeDotCut(s[1..], rest);
    }
  }

  /** A version string `n.rest` has major version n. */
  lemma {:induction false} ITermReleases(n: nat, rest: string)
    ensures ITermMajor(NatToString(n) + "." + rest) == Some(n)
  {
    var s := NatToString(n);
    DigitsValueOfString(n);
    forall i | 0 <= i < |s|
      ensures s[i] != '.'
    {
      assert DigitOrJoiner(s, i);
    }
    BeforeDotCut(s, rest);
    ParseIntOfString(n);
  }

  /** Blanks around the major version and underscores between its digits are accepted. */
  lemma {:induction false} ITermBlanksAndUnderscores(pre: string, a: string, b: string, post: string, rest: string)
    requires AllSpace(pre) && AllSpace(post) && WellFormedDigits(a) && WellFormedDigits(b)
    ensures ITermMajor(pre + a + "_" + b + post + "." + rest) == Some(DigitsValue(a + b))
  {
    var w := a + "_" + b;
    UnderscoreSkipped(a, b);
    ParseDigits(w);
    var m := pre + w + post;
    forall i | 0 <= i < |m|
      ensures m[i] != '.'
    {
      if i < |pre| {
        assert IsSpace(pre[i]);
      } else if i < |pre| + |w| {
        assert DigitOrJoiner(w, i - |pre|);
        assert m[i] == w[i - |pre|];
      } else {
        assert IsSpace(post[i - |pre| - |w|]);
      }
    }
    assert pre + a + "_" + b + post + "." + rest == m + "." + rest;
    BeforeDotCut(m, rest);
    BlanksStripped(pre, w, post);
  }

  /**
   * A major version that strips to nothing, or holds a character that is
   * neither a digit, nor an underscore before a digit, nor a leading sign,
   * cannot be read: the version counts as unreadable.
   */
  lemma {:induction false} ITermUnreadable(version: string, i: nat)
    requires var t := Strip(BeforeDot(version));
             t == [] ||
             (i < |t| && !IsDigit(t[i]) && !(t[i] == '_' && i + 1 < |t| && IsDigit(t[i + 1]))
              && !(i == 0 && (t[0] == '+' || t[0] == '-')))
    ensures ITermMajor(version) == None
  {
    var t := Strip(BeforeDot(version));
    if t != [] {
      if t[0] == '+' || t[0] == '-' {
        var body := t[1..];
        assert body[i - 1] == t[i];
        if i < |body| {
          assert body[i] == t[i + 1];
        }
        RejectedAt(body, i - 1);
      } else {
        RejectedAt(t, i);
      }
    }
  }

  /** Without the earlier rules, "256" in TERM or COLORTERM gives 256 colours. */
  lemma Has256(env: map<string, string>)
    requires !Contains(Var(env, "COLORTERM"), "truecolor") && !Contains(Var(env, "COLORTERM"), "24bit")
    requires Var(env, "ConEmuANSI") != "on"
    requires Var(env, "TERM_PROGRAM") != "apple_terminal" && Var(env, "TERM_PROGRAM") != "iterm.app"
    requires Contains(Var(env, "TERM"), "256") || Contains(Var(env, "COLORTERM"), "256")
    ensures DetectColorMode(env) == Has8BitColor
  {
  }

  /** The classifier answers NO_COLOR exactly when no rule fires. */
  lemma NoColorExactly(env: map<string, string>)
    ensures DetectColorMode(env) == NoColor <==>
      (!Contains(Var(env, "COLORTERM"), "truecolor") && !Contains(Var(env, "COLORTERM"), "24bit")
       && Var(env, "ConEmuANSI") != "on"
       && Var(env, "TERM_PROGRAM") != "apple_terminal" && Var(env, "TERM_PROGRAM") != "iterm.app"
       && !Contains(Var(env, "TERM"), "256") && !Contains(Var(env, "COLORTERM"), "256")
       && !NamesBasicTerminal(Var(env, "TERM"))
       && Var(env, "COLORTERM") == "")
  {
  }

  /** Past the earlier rules and without "256", a basic terminal in TERM or any other COLORTERM gives 16 colours. */
  lemma BasicTerminalHasColor(env: map<string, string>)
    requires !Contains(Var(env, "COLORTERM"), "truecolor") && !Contains(Var(env, "COLORTERM"), "24bit")
    requires Var(env, "ConEmuANSI") != "on"
    requires Var(env, "TERM_PROGRAM") != "apple_terminal" && Var(env, "TERM_PROGRAM") != "iterm.app"
    requires !Contains(Var(env, "TERM"), "256") && !Contains(Var(env, "COLORTERM"), "256")
    requires NamesBasicTerminal(Var(env, "TERM")) || Var(env, "COLORTERM") != ""
    ensures DetectColorMode(env) == Has4BitColor
  {
  }

  /** An empty environment has no colour. */
  lemma {:induction false} EmptyEnvironment()
    ensures DetectColorMode(map[]) == NoColor
  {
    var env: map<string, string> := map[];
    assert Var(env, "TERM") == "" && Var(env, "COLORTERM") == "";
    assert !NamesBasicTerminal("") by {
      forall j | 0 <= j < |BasicTerminals|
        ensures !Contains("", BasicTerminals[j])
      {
        assert |BasicTerminals[j]| > 0;
      }
    }
  }

  /** The environment with every value lowercased. */
  function LowerValues(env: map<string, string>): (r: map<string, string>)
    ensures r.Keys == env.Keys
    ensures forall k :: k in env ==> r[k] == Lower(env[k])
  {
    map k | k in env :: Lower(env[k])
  }

  /** The classification does not depend on the case of the values. */
  lemma {:induction false} CaseInsensitive(env: map<string, string>)
    ensures DetectColorMode(LowerValues(env)) == DetectColorMode(env)
  {
    var lowered := LowerValues(env);
    forall name | name in ["TERM", "COLORTERM", "TERM_PROGRAM", "TERM_PROGRAM_VERSION", "ConEmuANSI"]
      ensures Var(lowered, name) == Var(env, name)
    {
      if name in env {
        LowerIdempotent(env[name]);
      }
    }
  }

  /** The final test of detect_true_color_support on the terminal's reply to the probe. */
  predicate TrueColorReply(data: string)
  {
    Contains(data, "P1$r") && Contains(data, "48:2") && Contains(data, "1:2:3m")
  }

  /** A terminal that reports back the colour the probe set is recognised, whatever surrounds its reply. */
  lemma {:induction false} ProbeReplyRecognised(before: string, after: string)
    ensures TrueColorReply(before + "\U{1B}P1$r48:2:1:2:3m\U{1B}\\" + after)
  {
    var reply := "\U{1B}P1$r48:2:1:2:3m\U{1B}\\";
    assert OccursAt(reply, "P1$r", 1);
    assert OccursAt(reply, "48:2", 5);
    assert OccursAt(reply, "1:2:3m", 10);
    ContainsExtend(before, reply, after, "P1$r");
    ContainsExtend(before, reply, after, "48:2");
    ContainsExtend(before, reply, after, "1:2:3m");
  }

  /** A terminal that only reports an error does not claim direct colour. */
  lemma {:induction false} ErrorReplyRejected()
    ensures !TrueColorReply("\U{1B}P0$r\U{1B}\\")
  {
    var reply := "\U{1B}P0$r\U{1B}\\";
    forall i | 0 <= i
      ensures !OccursAt(reply, "P1$r", i)
    {
      if i + 4 <= |reply| {
        assert reply[i..i + 4][0] == reply[i] && reply[i..i + 4][1] == reply[i + 1];
      }
    }
  }

  /** detect_local_color_mode, with the outcome of the probe as a parameter. */
  function LocalColorMode(reply: string, env: map<string, string>): (r: ColorMode)
  {
    if TrueColorReply(reply) then Has24BitColor else DetectColorMode(env)
  }

  /** The probe can only raise the mode the environment suggests. */
  lemma LocalAtLeastEnvironment(reply: string, env: map<string, string>)
    ensures LocalColorMode(reply, env).Level() >= DetectColorMode(env).Level()
    ensures TrueColorReply(reply) ==> LocalColorMode(reply, env) == Has24BitColor
    ensures !TrueColorReply(reply) ==> LocalColorMode(reply, env) == DetectColorMode(env)
  {
  }
}
