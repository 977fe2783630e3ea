/**
 * The locator grammar of element_finder.py (`_parse_locator`):
 *   `=value`        Content
 *   `left >> right` HLabelHLabel
 *   `@ label`       VLabel
 *   `h @ v`         HLabelVLabel (an index on one side is recognised but unsupported)
 *   `label`         HLabel
 */
module LocatorParser {
  import opened Wrappers
  import opened Text
  import opened Locators

  /** `ValueError` for a malformed locator, `NotImplementedError` for an index-based one. */
  datatype ParseError = InvalidFormat | Unsupported

  /** `_parse_locator`: classify the stripped locator, `=` first, then `>>`, then `@`. */
  function Parse(locator: string): Result<Strategy, ParseError> {
    ParseStripped(Strip(locator))
  }

  /** The classification of an already stripped locator. */
  function ParseStripped(s: string): (r: Result<Strategy, ParseError>)
    ensures |s| > 0 && s[0] == '=' ==> r == Success(Content(Strip(s[1..])))
    ensures !(|s| > 0 && s[0] == '=') ==> r == ParseUnmarked(s)
  {
    if |s| > 0 && s[0] == '=' then Success(Content(Strip(s[1..])))
    else ParseUnmarked(s)
  }

  /** A locator without a leading `=`: the first `>>` decides before any `@`. */
  function ParseUnmarked(s: string): (r: Result<Strategy, ParseError>)
    ensures IndexOf(s, ">>").Some? ==> r == Failure(InvalidFormat) || (r.Success? && r.value.HLabelHLabel?)
    ensures IndexOf(s, ">>").None? ==> r == ParseNoPair(s)
  {
    match IndexOf(s, ">>")
    case Some(k) => ParsePair(Strip(s[..k]), Strip(s[k + 2..]))
    case None => ParseNoPair(s)
  }

  /** The `>>` branch, given the stripped text on each side of the first `>>`. */
  function ParsePair(left: string, right: string): (r: Result<Strategy, ParseError>)
    ensures r.Success? <==> left != [] && right != []
    ensures r.Success? ==> r.value == HLabelHLabel(left, right)
    ensures r.Failure? ==> r.error == InvalidFormat
  {
    if left != [] && right != [] then Success(HLabelHLabel(left, right))
    else Failure(InvalidFormat)
  }

  /** A locator with no `=` mark and no `>>`: an `@` split, else a plain label. */
  function ParseNoPair(s: string): (r: Result<Strategy, ParseError>)
    ensures IndexOf(s, "@").None? ==> r == if s == [] then Failure(InvalidFormat) else Success(HLabel(s))
    ensures IndexOf(s, "@").Some? ==> r.Failure? || r.value.VLabel? || r.value.HLabelVLabel?
  {
    match IndexOf(s, "@")
    case Some(k) => ParseAt(Strip(s[..k]), Strip(s[k + 1..]))
    case None => if s != [] then Success(HLabel(s)) else Failure(InvalidFormat)
  }

  /** The `@` branch, given the stripped text on each side of the first `@`. */
  function ParseAt(left: string, right: string): (r: Result<Strategy, ParseError>)
    ensures r == Failure(Unsupported) <==> left != [] && right != [] && IsDigits(left) != IsDigits(right)
    ensures r.Success? ==> right != []
    ensures r.Success? && left == [] ==> r == Success(VLabel(right))
    ensures r.Success? && left != [] ==> !IsDigits(left) && !IsDigits(right)
    ensures left == [] && right != [] ==> r == Success(VLabel(right))
    ensures left != [] && right != [] && !IsDigits(left) && !IsDigits(right) ==>
      r == Success(HLabelVLabel(StripQuotes(left), StripQuotes(right)))
  {
    if left == [] && right != [] then
      Success(VLabel(right))
    else if left != [] && right != [] then
      var leftIsIndex := IsDigits(left);
      var rightIsIndex := IsDigits(right);
      if leftIsIndex && !rightIsIndex then Failure(Unsupported)
      else if !leftIsIndex && rightIsIndex then Failure(Unsupported)
      else if !leftIsIndex && !rightIsIndex then
        Success(HLabelVLabel(StripQuotes(left), StripQuotes(right)))
      else Failure(InvalidFormat)
    else Failure(InvalidFormat)
  }

  /** The canonical spelling of a strategy. */
  function Render(st: Strategy): string {
    match st
    case Content(v) => "=" + v
    case HLabel(l) => l
    case VLabel(l) => "@" + l
    case HLabelVLabel(h, v) => h + "@" + v
    case HLabelHLabel(a, b) => a + ">>" + b
  }

  /** A label that survives stripping and holds no `>>`. */
  predicate PlainLabel(l: string) {
    l != [] && Stripped(l, IsSpace) && IndexOf(l, ">>").None?
  }

  /** The strategies whose canonical spelling parses back to themselves. */
  predicate WellFormed(st: Strategy) {
    match st
    case Content(v) => Stripped(v, IsSpace)
    case HLabel(l) => PlainLabel(l) && l[0] != '=' && '@' !in l
    case VLabel(l) => PlainLabel(l)
    case HLabelVLabel(h, v) =>
      && PlainLabel(h) && PlainLabel(v) && h[0] != '=' && '@' !in h
      && !IsDigits(h) && !IsDigits(v) && Stripped(h, IsQuote) && Stripped(v, IsQuote)
    case HLabelHLabel(a, b) =>
      && PlainLabel(a) && a[0] != '=' && a[|a| - 1] != '>'
      && b != [] && Stripped(b, IsSpace)
  }

  lemma StripStripped(s: string)
    requires Stripped(s, IsSpace)
    ensures Strip(s) == s
  {
    StripByIdentity(s, IsSpace);
  }

  lemma NoCharMeansNoIndex(s: string, c: char)
    requires c !in s
    ensures IndexOf(s, [c]).None?
  {
    forall j | 0 <= j ensures !OccursAt(s, [c], j) {
      OccursAtChar(s, c, j);
    }
  }

  lemma FirstChar(a: string, c: char, b: string)
    requires c !in a
    ensures IndexOf(a + [c] + b, [c]) == Some(|a|)
  {
    var s := a + [c] + b;
    OccursAtChar(s, c, |a|);
    forall j | 0 <= j < |a| ensures !OccursAt(s, [c], j) {
      OccursAtChar(s, c, j);
    }
    IndexOfIsFirst(s, [c], |a|);
  }

  /** `>>` does not straddle a `@` or appear in either side. */
  lemma NoPairAroundAt(h: string, v: string)
    requires IndexOf(h, ">>").None? && IndexOf(v, ">>").None?
    ensures IndexOf(h + "@" + v, ">>").None?
  {
    var s := h + "@" + v;
    forall j | 0 <= j ensures !OccursAt(s, ">>", j) {
      if j + 2 <= |h| {
        assert s[j..j + 2] == h[j..j + 2];
        assert !OccursAt(h, ">>", j);
      } else if j + 2 <= |s| && j <= |h| {
        assert s[|h|] == '@';
        assert s[j..j + 2][0] == s[j] && s[j..j + 2][1] == s[j + 1];
      } else if j + 2 <= |s| {
        assert s[j..j + 2] == v[j - |h| - 1..j - |h| + 1];
        assert !OccursAt(v, ">>", j - |h| - 1);
      }
    }
  }

  lemma NoPairAfterAt(l: string)
    requires IndexOf(l, ">>").None?
    ensures IndexOf("@" + l, ">>").None?
  {
    var s := "@" + l;
    forall j | 0 <= j ensures !OccursAt(s, ">>", j) {
      if 1 <= j && j + 2 <= |s| {
        assert s[j..j + 2] == l[j - 1..j + 1];
        assert !OccursAt(l, ">>", j - 1);
      } else if j + 2 <= |s| {
        assert s[j..j + 2][0] == '@';
      }
    }
  }

  lemma FirstPair(a: string, b: string)
    requires IndexOf(a, ">>").None? && a != [] && a[|a| - 1] != '>'
    ensures IndexOf(a + ">>" + b, ">>") == Some(|a|)
  {
    var s := a + ">>" + b;
    assert s[|a|..|a| + 2] == ">>";
    forall j | 0 <= j < |a| ensures !OccursAt(s, ">>", j) {
      if j + 2 <= |a| {
        assert s[j..j + 2] == a[j..j + 2];
        assert !OccursAt(a, ">>", j);
      } else {
        assert s[j..j + 2][0] == a[|a| - 1];
      }
    }
    IndexOfIsFirst(s, ">>", |a|);
  }

  lemma ParseRenderVLabel(l: string)
    requires WellFormed(VLabel(l))
    ensures Parse(Render(VLabel(l))) == Success(VLabel(l))
  {
    var s := Render(VLabel(l));
    assert Strip(s) == s && s[0] != '=' by {
      StripStripped(s);
    }
    assert IndexOf(s, ">>").None? by {
      NoPairAfterAt(l);
    }
    assert IndexOf(s, "@") == Some(0) by {
      FirstChar([], '@', l);
      assert s == [] + ['@'] + l;
    }
    assert Strip(s[..0]) == [] && Strip(s[1..]) == l by {
      assert s[..0] == [] && s[1..] == l;
      StripStripped(l);
    }
    ParseOfAt(s, 0);
    assert ParseAt([], l) == Success(VLabel(l));
  }

  lemma ParseRenderHLabelVLabel(h: string, v: string)
    requires WellFormed(HLabelVLabel(h, v))
    ensures Parse(Render(HLabelVLabel(h, v))) == Success(HLabelVLabel(h, v))
  {
    var s := Render(HLabelVLabel(h, v));
    assert Strip(s) == s && s[0] != '=' by {
      assert s[0] == h[0] && s[|s| - 1] == v[|v| - 1];
      StripStripped(s);
    }
    assert IndexOf(s, ">>").None? by {
      NoPairAroundAt(h, v);
    }
    assert IndexOf(s, "@") == Some(|h|) by {
      FirstChar(h, '@', v);
      assert s == h + ['@'] + v;
    }
    assert Strip(s[..|h|]) == h && Strip(s[|h| + 1..]) == v by {
      assert s[..|h|] == h && s[|h| + 1..] == v;
      StripStripped(h);
      StripStripped(v);
    }
    assert StripQuotes(h) == h && StripQuotes(v) == v by {
      StripByIdentity(h, IsQuote);
      StripByIdentity(v, IsQuote);
    }
    ParseOfAt(s, |h|);
  }

  lemma ParseOfPair(s: string, k: nat)
    requires Strip(s) == s && s != [] && s[0] != '='
    requires IndexOf(s, ">>") == Some(k)
    ensures Parse(s) == if Strip(s[..k]) != [] && Strip(s[k + 2..]) != []
                        then Success(HLabelHLabel(Strip(s[..k]), Strip(s[k + 2..])))
                        else Failure(InvalidFormat)
  {
  }

  lemma ParseOfAt(s: string, k: nat)
    requires Strip(s) == s && s != [] && s[0] != '='
    requires IndexOf(s, ">>").None? && IndexOf(s, "@") == Some(k)
    ensures Parse(s) == ParseAt(Strip(s[..k]), Strip(s[k + 1..]))
  {
  }

  lemma ParseRenderHLabelHLabel(a: string, b: string)
    requires WellFormed(HLabelHLabel(a, b))
    ensures Parse(Render(HLabelHLabel(a, b))) == Success(HLabelHLabel(a, b))
  {
    var s := Render(HLabelHLabel(a, b));
    assert s[0] == a[0] && s[|s| - 1] == b[|b| - 1];
    StripStripped(s);
    FirstPair(a, b);
    assert s[..|a|] == a && s[|a| + 2..] == b;
    StripStripped(a);
    StripStripped(b);
    ParseOfPair(s, |a|);
  }

  /** Parsing the canonical spelling of a well-formed strategy gives it back. */
  lemma ParseRender(st: Strategy)
    requires WellFormed(st)
    ensures Parse(Render(st)) == Success(st)
  {
    match st
    case Content(v) =>
      var s := Render(st);
      StripStripped(s);
      assert s[1..] == v;
      StripStripped(v);
    case HLabel(l) =>
      StripStripped(l);
      NoCharMeansNoIndex(l, '@');
    case VLabel(l) =>
      ParseRenderVLabel(l);
    case HLabelVLabel(h, v) =>
      ParseRenderHLabelVLabel(h, v);
    case HLabelHLabel(a, b) =>
      ParseRenderHLabelHLabel(a, b);
  }

  /** Surrounding whitespace never changes how a locator parses. */
  lemma ParseIgnoresSurroundingSpace(locator: string)
    ensures Parse(locator) == Parse(Strip(locator))
  {
    StripByIdempotent(locator, IsSpace);
  }

  /**
   * The classification order: a leading `=` wins over `>>` and `@`, `>>` wins
   * over `@`, and a locator with none of them is a plain label.
   */
  lemma ParsePriority(locator: string)
    ensures var s := Strip(locator);
      && (|s| > 0 && s[0] == '=' ==> Parse(locator).Success? && Parse(locator).value.Content?)
      && (!(|s| > 0 && s[0] == '=') && IndexOf(s, ">>").Some? ==>
            Parse(locator) == Failure(InvalidFormat) || Parse(locator).value.HLabelHLabel?)
      && (!(|s| > 0 && s[0] == '=') && IndexOf(s, ">>").None? && IndexOf(s, "@").Some? ==>
            Parse(locator).Failure? || Parse(locator).value.VLabel? || Parse(locator).value.HLabelVLabel?)
      && (IndexOf(s, ">>").None? && IndexOf(s, "@").None? && !(|s| > 0 && s[0] == '=') ==>
            Parse(locator) == if s == [] then Failure(InvalidFormat) else Success(HLabel(s)))
  {
  }

  /** Every label a successful parse returns is non-empty, except a quoted one in `h @ v`. */
  lemma ParsedLabelsNonEmpty(locator: string)
    requires Parse(locator).Success?
    ensures var st := Parse(locator).value;
      && ((st.HLabel? || st.VLabel?) ==> st.labelText != [])
      && (st.HLabelHLabel? ==> st.leftLabel != [] && st.rightLabel != [])
  {
    var s := Strip(locator);
    if !(|s| > 0 && s[0] == '=') && IndexOf(s, ">>").None? && IndexOf(s, "@").Some? {
      var k := IndexOf(s, "@").value;
      assert Parse(locator) == ParseAt(Strip(s[..k]), Strip(s[k + 1..]));
    }
  }

  /** An index on exactly one side of `@` is the only way to get `Unsupported`. */
  lemma UnsupportedIsIndexAt(locator: string)
    requires Parse(locator) == Failure(Unsupported)
    ensures var s := Strip(locator);
      && IndexOf(s, ">>").None?
      && IndexOf(s, "@").Some?
      && var k := IndexOf(s, "@").value;
        IsDigits(Strip(s[..k])) != IsDigits(Strip(s[k + 1..]))
  {
  }

  lemma ContentExample()
    ensures Parse("=Save") == Success(Content("Save"))
  {
    assert Render(Content("Save")) == "=Save";
    ParseRender(Content("Save"));
  }

  lemma HLabelExample()
    ensures Parse("User") == Success(HLabel("User"))
  {
    NoPairInWord("User");
    assert '@' !in "User";
    ParseRender(HLabel("User"));
  }

  lemma HLabelHLabelExample()
    ensures Parse("A>>B") == Success(HLabelHLabel("A", "B"))
  {
    assert IndexOf("A", ">>").None?;
    assert Render(HLabelHLabel("A", "B")) == "A>>B";
    ParseRender(HLabelHLabel("A", "B"));
  }

  lemma EmptyExample()
    ensures Parse("") == Failure(InvalidFormat)
  {
  }

  /** No `>>` is created by joining two `>>`-free strings around another character. */
  lemma NoPairJoin(a: string, c: char, b: string)
    requires IndexOf(a, ">>").None? && IndexOf(b, ">>").None? && c != '>'
    ensures IndexOf(a + [c] + b, ">>").None?
  {
    var s := a + [c] + b;
    forall j | 0 <= j ensures !OccursAt(s, ">>", j) {
      if j + 2 <= |a| {
        assert s[j..j + 2] == a[j..j + 2];
        assert !OccursAt(a, ">>", j);
      } else if j + 2 <= |s| && j <= |a| {
        assert s[|a|] == c;
        assert s[j..j + 2][0] == s[j] && s[j..j + 2][1] == s[j + 1];
      } else if j + 2 <= |s| {
        assert s[j..j + 2] == b[j - |a| - 1..j - |a| + 1];
        assert !OccursAt(b, ">>", j - |a| - 1);
      }
    }
  }

  lemma StripPadded(x: string)
    requires x != [] && Stripped(x, IsSpace)
    ensures Strip(x + " ") == x && Strip(" " + x) == x
  {
    assert DropWhile(x + " ", IsSpace) == x + " ";
    assert (x + " ")[..|x|] == x;
    assert DropWhileEnd(x, IsSpace) == x;
    assert DropWhileEnd(x + " ", IsSpace) == x;
    assert (" " + x)[1..] == x;
    assert DropWhile(x, IsSpace) == x;
    assert DropWhile(" " + x, IsSpace) == x;
  }

  /** Stripping quotes from a quoted text that has no quote at either end gives the text back. */
  lemma StripQuoted(x: string)
    requires x != [] && Stripped(x, IsQuote)
    ensures StripQuotes(['"'] + x + ['"']) == x
  {
    var q := ['"'] + x + ['"'];
    assert q[1..] == x + ['"'];
    assert DropWhile(x + ['"'], IsQuote) == x + ['"'];
    assert DropWhile(q, IsQuote) == x + ['"'];
    assert (x + ['"'])[..|x|] == x;
    assert DropWhileEnd(x, IsQuote) == x;
    assert DropWhileEnd(x + ['"'], IsQuote) == x;
  }

  lemma NoPairInPlainLabel(l: string)
    requires PlainLabel(l)
    ensures IndexOf(l + " ", ">>").None? && IndexOf(" " + l, ">>").None?
  {
    NoPairJoin(l, ' ', []);
    assert l + [' '] + [] == l + " ";
    NoPairJoin([], ' ', l);
    assert [] + [' '] + l == " " + l;
  }

  /** Single spaces around the `@` of `h @ v` do not change how it parses. */
  lemma ParseSpacedAt(h: string, v: string)
    requires PlainLabel(h) && h[0] != '=' && '@' !in h && PlainLabel(v)
    ensures Parse(h + " @ " + v) == ParseAt(h, v)
  {
    var s := h + " @ " + v;
    assert s == (h + " ") + ['@'] + (" " + v);
    assert Strip(s) == s && s[0] != '=' by {
      assert s[0] == h[0] && s[|s| - 1] == v[|v| - 1];
      StripStripped(s);
    }
    assert IndexOf(s, ">>").None? by {
      NoPairInPlainLabel(h);
      NoPairInPlainLabel(v);
      NoPairJoin(h + " ", '@', " " + v);
    }
    assert IndexOf(s, "@") == Some(|h| + 1) by {
      assert '@' !in h + " ";
      FirstChar(h + " ", '@', " " + v);
    }
    assert Strip(s[..|h| + 1]) == h && Strip(s[|h| + 2..]) == v by {
      assert s[..|h| + 1] == h + " " && s[|h| + 2..] == " " + v;
      StripPadded(h);
      StripPadded(v);
    }
    ParseOfAt(s, |h| + 1);
  }

  /** A space after a leading `@` does not change how it parses. */
  lemma ParseSpacedVLabel(v: string)
    requires PlainLabel(v)
    ensures Parse("@ " + v) == ParseAt([], v)
  {
    var rest := " " + v;
    assert "@ " + v == ['@'] + rest;
    StripPadded(v);
    NoPairInPlainLabel(v);
    ParseLeadingAt(rest);
  }

  /** A locator that starts with `@` parses as the `@` branch with an empty left side. */
  lemma ParseLeadingAt(rest: string)
    requires rest != [] && !IsSpace(rest[|rest| - 1]) && IndexOf(rest, ">>").None?
    ensures Parse(['@'] + rest) == ParseAt([], Strip(rest))
  {
    var s := ['@'] + rest;
    assert s == [] + ['@'] + rest;
    assert Strip(s) == s by {
      assert s[|s| - 1] == rest[|rest| - 1];
      StripStripped(s);
    }
    assert IndexOf(s, ">>").None? by {
      NoPairJoin([], '@', rest);
    }
    assert IndexOf(s, "@") == Some(0) by {
      FirstChar([], '@', rest);
    }
    assert s[..0] == [] && s[1..] == rest;
    ParseOfAt(s, 0);
  }

  lemma NoPairInWord(w: string)
    requires forall i :: 0 <= i < |w| ==> w[i] != '>'
    ensures IndexOf(w, ">>").None?
  {
    forall j | 0 <= j ensures !OccursAt(w, ">>", j) {
      if j + 2 <= |w| {
        assert w[j..j + 2][0] == w[j];
      }
    }
  }

  lemma VLabelExample()
    ensures Parse("@ Password") == Success(VLabel("Password"))
  {
    NoPairInWord("Password");
    assert "@ Password" == "@ " + "Password";
    ParseSpacedVLabel("Password");
  }

  /** `h @ v` with spaces around the `@` and two plain, unquoted, non-index labels. */
  lemma ParseSpacedLabels(h: string, v: string)
    requires PlainLabel(h) && h[0] != '=' && '@' !in h && PlainLabel(v)
    requires !IsDigit(h[0]) && !IsDigit(v[0]) && Stripped(h, IsQuote) && Stripped(v, IsQuote)
    ensures Parse(h + " @ " + v) == Success(HLabelVLabel(h, v))
  {
    ParseSpacedAt(h, v);
    StripByIdentity(h, IsQuote);
    StripByIdentity(v, IsQuote);
  }

  lemma HLabelVLabelExample()
    ensures var h, v := "User", "Password"; Parse(h + " @ " + v) == Success(HLabelVLabel(h, v))
  {
    NoPairInWord("User");
    NoPairInWord("Password");
    ParseSpacedLabels("User", "Password");
  }

  /** Two indices around `@` are malformed, not unsupported. */
  lemma IndexIndexExample()
    ensures var h, v := "5", "7"; Parse(h + " @ " + v) == Failure(InvalidFormat)
  {
    NoPairInWord("5");
    NoPairInWord("7");
    ParseSpacedAt("5", "7");
    assert IsDigit("5"[0]) && IsDigit("7"[0]);
  }

  /** An index on one side of `@` is recognised but not implemented. */
  lemma IndexLabelExample()
    ensures var h, v := "3", "label"; Parse(h + " @ " + v) == Failure(Unsupported)
  {
    NoPairInWord("3");
    NoPairInWord("label");
    ParseSpacedAt("3", "label");
    assert IsDigit("3"[0]) && !IsDigit("label"[0]);
  }

  /** A quoted plain label is itself a plain label that is not an index and starts with no `=`. */
  lemma QuotedIsPlain(h: string)
    requires PlainLabel(h)
    ensures var q := ['"'] + h + ['"'];
      PlainLabel(q) && q[0] != '=' && !IsDigits(q) && ('@' in q <==> '@' in h)
  {
    var q := ['"'] + h + ['"'];
    NoPairJoin(h, '"', []);
    assert h + ['"'] + [] == h + ['"'];
    NoPairJoin([], '"', h + ['"']);
    assert [] + ['"'] + (h + ['"']) == q;
    assert forall c :: c in q <==> c == '"' || c in h;
  }

  /**
   * Quotes turn an index into a label: `"h" @ v` is HLabelVLabel of the
   * unquoted `h`, also when `h` is a number.
   */
  lemma ParseQuotedLabel(h: string, v: string)
    requires PlainLabel(h) && '@' !in h && Stripped(h, IsQuote)
    requires PlainLabel(v) && !IsDigits(v) && Stripped(v, IsQuote)
    ensures Parse("\"" + h + "\" @ " + v) == Success(HLabelVLabel(h, v))
  {
    var q := ['"'] + h + ['"'];
    assert "\"" + h + "\" @ " + v == q + " @ " + v;
    QuotedIsPlain(h);
    calc {
      Parse(q + " @ " + v);
      == { ParseSpacedAt(q, v); }
      ParseAt(q, v);
      ==
      Success(HLabelVLabel(StripQuotes(q), StripQuotes(v)));
      == { StripQuoted(h); StripByIdentity(v, IsQuote); }
      Success(HLabelVLabel(h, v));
    }
  }

  /** `"5" @ Name`: a quoted number is a row label, not an index. */
  lemma QuotedIndexExample()
    ensures var h, v := "5", "Name"; Parse("\"" + h + "\" @ " + v) == Success(HLabelVLabel(h, v))
  {
    var h, v := "5", "Name";
    NoPairInWord(h);
    NoPairInWord(v);
    assert '@' !in h && !IsDigit(v[0]);
    ParseQuotedLabel(h, v);
  }
}
