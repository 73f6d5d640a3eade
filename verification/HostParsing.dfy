/** Reading host patterns from user-provided strings and printing them back.  The IDN
    conversion and the IP-literal test are parameters: they come from outside. */
module HostParsing {
  import opened HostPatterns

  datatype ParseError = Empty | InvalidWildcard | Invalid | LocalAddress
  datatype ParseResult = Parsed(pattern: HostPattern) | Rejected(error: ParseError)

  datatype Conversion = Ascii(name: string) | NotConvertible

  /** The two outside functions parsing relies on. */
  datatype NameRules = NameRules(toAscii: string -> Conversion, isIpAddress: string -> bool)

  predicate IsWhitespace(c: char) {
    || '\U{0009}' <= c <= '\U{000D}' || c == ' ' || c == '\U{0085}' || c == '\U{00A0}'
    || c == '\U{1680}' || '\U{2000}' <= c <= '\U{200A}' || c == '\U{2028}' || c == '\U{2029}'
    || c == '\U{202F}' || c == '\U{205F}' || c == '\U{3000}'
  }

  function TrimStart(s: string): string {
    if s != "" && IsWhitespace(s[0]) then TrimStart(s[1..]) else s
  }

  function TrimEnd(s: string): string {
    if s != "" && IsWhitespace(s[|s| - 1]) then TrimEnd(s[..|s| - 1]) else s
  }

  function Trim(s: string): string { TrimEnd(TrimStart(s)) }

  predicate StartsWith(s: string, prefix: string) { prefix <= s }

  predicate HasEmptyLabel(s: string) {
    StartsWith(s, ".") || EndsWith(s, ".") || exists i :: 0 <= i < |s| - 1 && s[i] == '.' && s[i + 1] == '.'
  }

  predicate IsLocal(name: string) { name == "localhost" || EndsWith(name, ".localhost") }

  function WithoutBrackets(s: string): string {
    if StartsWith(s, "[") && EndsWith(s[1..], "]") then WithoutSuffix(s[1..], "]") else s
  }

  /** What parsing guarantees of the name in a pattern. */
  predicate Accepted(name: string) {
    WellFormedName(name) && !HasEmptyLabel(name) && !IsLocal(name)
  }

  /** Checks a name that is free of wildcards and of a trailing dot. */
  function ParseName(name: string, wildcard: bool, rules: NameRules): (r: ParseResult)
    ensures r.Parsed? ==> Accepted(Name(r.pattern)) && r.pattern.Subdomain? == wildcard
  {
    if name == "" then Rejected(Empty)
    else
      match rules.toAscii(name)
      case NotConvertible => Rejected(Invalid)
      case Ascii(ascii) =>
        if ascii == "" then Rejected(Empty)
        else if rules.isIpAddress(WithoutBrackets(ascii)) then Rejected(LocalAddress)
        else if HasEmptyLabel(ascii) then Rejected(Invalid)
        else
          var canonical := Lower(ascii);
          LowerWellFormed(ascii);
          if IsLocal(canonical) then Rejected(LocalAddress)
          else Parsed(if wildcard then Subdomain(canonical) else Exact(canonical))
  }

  lemma LowerWellFormed(ascii: string)
    requires ascii != "" && !HasEmptyLabel(ascii)
    ensures WellFormedName(Lower(ascii)) && !HasEmptyLabel(Lower(ascii))
  {
    var name := Lower(ascii);
    assert ascii[..1] == [ascii[0]] && ascii[|ascii| - 1..] == [ascii[|ascii| - 1]];
    assert name[..1] == [name[0]] && name[|name| - 1..] == [name[|name| - 1]];
    assert Lower(name) == name;
    assert forall i :: 0 <= i < |ascii| ==> (name[i] == '.' <==> ascii[i] == '.');
  }

  /** Parsing accepts an optional leading `*.`, one trailing dot and surrounding blanks. */
  function Parse(input: string, rules: NameRules): (r: ParseResult)
    ensures r.Parsed? ==> Accepted(Name(r.pattern)) && r.pattern.Subdomain? == StartsWith(Trim(input), "*.")
  {
    var trimmed := Trim(input);
    if trimmed == "" then Rejected(Empty)
    else
      var wildcard := StartsWith(trimmed, "*.");
      var rest := if wildcard then trimmed[2..] else trimmed;
      if '*' in rest then Rejected(InvalidWildcard)
      else ParseName(if EndsWith(rest, ".") then WithoutSuffix(rest, ".") else rest, wildcard, rules)
  }

  function Print(pattern: HostPattern): string {
    match pattern
    case Exact(host) => host
    case Subdomain(parent) => "*." + parent
  }

  /** The pattern is read back from its printed form. */
  predicate Reparses(pattern: HostPattern, rules: NameRules) {
    Parse(Print(pattern), rules) == Parsed(pattern)
  }

  /** A name that parsing leaves alone: accepted, already converted, and free of blanks at
      its ends and of wildcards. */
  predicate Plain(pattern: HostPattern, rules: NameRules) {
    var name := Name(pattern);
    && Accepted(name)
    && rules.toAscii(name) == Ascii(name)
    && !rules.isIpAddress(WithoutBrackets(name))
    && '*' !in name
    && (pattern.Exact? ==> !IsWhitespace(name[0]))
    && !IsWhitespace(name[|name| - 1])
  }

  lemma PrintShape(pattern: HostPattern, rules: NameRules)
    requires Plain(pattern, rules)
    ensures Trim(Print(pattern)) == Print(pattern) != ""
    ensures StartsWith(Print(pattern), "*.") == pattern.Subdomain?
    ensures pattern.Subdomain? ==> Print(pattern)[2..] == Name(pattern)
    ensures !EndsWith(Name(pattern), ".")
  {}

  lemma ParseNamePlain(pattern: HostPattern, rules: NameRules)
    requires Plain(pattern, rules)
    ensures ParseName(Name(pattern), pattern.Subdomain?, rules) == Parsed(pattern)
  {}

  /** Printing then parsing gives a plain pattern back. */
  lemma PrintParse(pattern: HostPattern, rules: NameRules)
    requires Plain(pattern, rules)
    ensures Reparses(pattern, rules)
  {
    hide ParseName, WellFormedName, HasEmptyLabel, IsLocal, WithoutBrackets, IsWhitespace, Trim, EndsWith, StartsWith;
    PrintShape(pattern, rules);
    ParseNamePlain(pattern, rules);
  }

  // ---- Exactly what is accepted -------------------------------------------------------------------

  /** A name is accepted exactly if it converts, is no IP address, and its lower case form is
      a name that patterns may have. */
  lemma ParseNameIff(name: string, wildcard: bool, rules: NameRules, pattern: HostPattern)
    ensures ParseName(name, wildcard, rules) == Parsed(pattern) <==>
      && name != "" && rules.toAscii(name).Ascii?
      && (var ascii := rules.toAscii(name).name;
          && !rules.isIpAddress(WithoutBrackets(ascii)) && Accepted(Lower(ascii))
          && pattern == if wildcard then Subdomain(Lower(ascii)) else Exact(Lower(ascii)))
  {
    if name != "" && rules.toAscii(name).Ascii? {
      var ascii := rules.toAscii(name).name;
      if Accepted(Lower(ascii)) { LowerLabels(ascii); }
      if ascii != "" && !HasEmptyLabel(ascii) { LowerWellFormed(ascii); }
    }
  }

  lemma LowerLabels(ascii: string)
    requires Accepted(Lower(ascii))
    ensures ascii != "" && !HasEmptyLabel(ascii)
  {
    var name := Lower(ascii);
    assert |name| == |ascii| && forall i :: 0 <= i < |ascii| ==> (name[i] == '.' <==> ascii[i] == '.');
    assert ascii[..1] == [ascii[0]] && ascii[|ascii| - 1..] == [ascii[|ascii| - 1]];
    assert name[..1] == [name[0]] && name[|name| - 1..] == [name[|name| - 1]];
  }

  predicate Blank(s: string) { forall i :: 0 <= i < |s| ==> IsWhitespace(s[i]) }

  /** No blank at either end. */
  predicate Tight(s: string) { s != "" && !IsWhitespace(s[0]) && !IsWhitespace(s[|s| - 1]) }

  lemma {:induction false} TrimStartBlank(pre: string, s: string)
    requires Blank(pre) && (s == "" || !IsWhitespace(s[0]))
    ensures TrimStart(pre + s) == s
  {
    hide IsWhitespace;
    if pre == "" {
      assert pre + s == s;
    } else {
      assert (pre + s)[1..] == pre[1..] + s && (pre + s)[0] == pre[0];
      TrimStartBlank(pre[1..], s);
    }
  }

  lemma {:induction false} TrimEndBlank(s: string, post: string)
    requires Blank(post) && (s == "" || !IsWhitespace(s[|s| - 1]))
    ensures TrimEnd(s + post) == s
  {
    hide IsWhitespace;
    if post == "" {
      assert s + post == s;
    } else {
      var n := |post| - 1;
      assert (s + post)[..|s| + n] == s + post[..n] && (s + post)[|s| + n] == post[n];
      TrimEndBlank(s, post[..n]);
    }
  }

  /** Trimming takes away the blanks around. */
  lemma TrimBlanks(pre: string, s: string, post: string)
    requires Blank(pre) && Tight(s) && Blank(post)
    ensures Trim(pre + s + post) == s
  {
    hide IsWhitespace;
    assert pre + s + post == pre + (s + post) && (s + post)[0] == s[0];
    TrimStartBlank(pre, s + post);
    TrimEndBlank(s, post);
  }

  /** Blanks around make no difference. */
  lemma ParseIgnoresBlanks(pre: string, s: string, post: string, rules: NameRules)
    requires Blank(pre) && Tight(s) && Blank(post)
    ensures Parse(pre + s + post, rules) == Parse(s, rules)
  {
    hide *;
    TrimBlanks(pre, s, post);
    TrimTight(s);
    ParseTrimmed(pre + s + post, s, rules);
  }

  lemma TrimTight(s: string)
    requires Tight(s)
    ensures Trim(s) == s
  {
    TrimBlanks("", s, "");
    assert "" + s + "" == s;
  }

  /** Parsing looks at the trimmed input only. */
  lemma ParseTrimmed(input: string, other: string, rules: NameRules)
    requires Trim(input) == Trim(other)
    ensures Parse(input, rules) == Parse(other, rules)
  {
    hide Trim, ParseName;
  }

  /** What parsing does once blanks and the wildcard are taken off. */
  function ParseRest(rest: string, wildcard: bool, rules: NameRules): ParseResult {
    if '*' in rest then Rejected(InvalidWildcard)
    else ParseName(if EndsWith(rest, ".") then WithoutSuffix(rest, ".") else rest, wildcard, rules)
  }

  lemma ParseTight(s: string, rules: NameRules)
    requires Tight(s)
    ensures StartsWith(s, "*.") ==> Parse(s, rules) == ParseRest(s[2..], true, rules)
    ensures !StartsWith(s, "*.") ==> Parse(s, rules) == ParseRest(s, false, rules)
  {
    hide IsWhitespace, Tight, Trim, ParseName;
    TrimTight(s);
    TightSome(s);
  }

  lemma TightSome(s: string)
    requires Tight(s)
    ensures s != ""
  {}

  lemma RestIgnoresDot(rest: string, wildcard: bool, rules: NameRules)
    requires rest != "" && rest[|rest| - 1] != '.'
    ensures ParseRest(rest + ".", wildcard, rules) == ParseRest(rest, wildcard, rules)
  {
    hide ParseName;
    assert EndsWith(rest + ".", ".") && WithoutSuffix(rest + ".", ".") == rest;
    assert !EndsWith(rest, ".");
  }

  /** One trailing dot makes no difference. */
  lemma ParseIgnoresDot(s: string, rules: NameRules)
    requires Tight(s) && s[|s| - 1] != '.' && s != "*"
    ensures Parse(s + ".", rules) == Parse(s, rules)
  {
    hide *;
    TightDot(s);
    ParseTight(s, rules);
    ParseTight(s + ".", rules);
    DotBehind(s);
    if StartsWith(s, "*.") {
      RestIgnoresDot(s[2..], true, rules);
    } else {
      RestIgnoresDot(s, false, rules);
    }
  }

  lemma TightDot(s: string)
    requires Tight(s)
    ensures Tight(s + ".") && s != ""
  {
    DotIsNoBlank();
  }

  lemma DotBehind(s: string)
    requires s != "" && s[|s| - 1] != '.' && s != "*"
    ensures StartsWith(s + ".", "*.") == StartsWith(s, "*.")
    ensures StartsWith(s, "*.") ==>
      |s| > 2 && (s + ".")[2..] == s[2..] + "." && s[2..] != "" && s[2..][|s[2..]| - 1] != '.'
  {
    assert |s| == 1 ==> s == [s[0]];
    assert StartsWith(s, "*.") <==> |s| >= 2 && s[0] == '*' && s[1] == '.';
    assert StartsWith(s + ".", "*.") <==> (s + ".")[0] == '*' && (s + ".")[1] == '.';
  }

  lemma DotIsNoBlank()
    ensures !IsWhitespace('.') && !IsWhitespace('*')
  {}

  lemma RestWildcard(rest: string, rules: NameRules, name: string)
    ensures ParseRest(rest, true, rules) == Parsed(Subdomain(name)) <==>
            ParseRest(rest, false, rules) == Parsed(Exact(name))
  {
    hide ParseName, Accepted, WithoutBrackets, Lower;
    var core := if EndsWith(rest, ".") then WithoutSuffix(rest, ".") else rest;
    ParseNameIff(core, true, rules, Subdomain(name));
    ParseNameIff(core, false, rules, Exact(name));
  }

  /** A wildcard is accepted exactly if the name behind it is, and has the same name. */
  lemma ParseWildcard(s: string, rules: NameRules, name: string)
    requires Tight(s) && !StartsWith(s, "*.")
    ensures Parse("*." + s, rules) == Parsed(Subdomain(name)) <==> Parse(s, rules) == Parsed(Exact(name))
  {
    hide IsWhitespace, Parse, ParseRest;
    assert Tight("*." + s) by { DotIsNoBlank(); }
    ParseTight(s, rules);
    ParseTight("*." + s, rules);
    assert ("*." + s)[2..] == s;
    RestWildcard(s, rules, name);
  }
}
