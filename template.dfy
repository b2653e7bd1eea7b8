/** The part of Python's `str.format(**fields)` that recommendation templates
    use: `{name}` placeholders and the `{{` / `}}` escapes. A template is read
    into a sequence of tokens and then rendered left to right; the first
    problem met on the way is the error the call raises. */
module Template {
  import opened Base
  import opened Text
  import opened Values

  datatype Token = Char(c: char) | Field(name: string)

  datatype FormatError =
    | LoneCloseBrace                   // ValueError: Single '}' encountered
    | LoneOpenBrace                    // ValueError: Single '{' / expected '}'
    | PositionalField                  // IndexError: "{}" or "{0}" with no positional arguments
    | UnsupportedField(field: string)  // attribute or index access, conversion, format spec
    | MissingField(name: string)       // KeyError: the field is not among the arguments

  /** Index of the `}` that closes a field whose `{` came before `s[i..]`,
      counting nested braces; `None` when the string ends first. */
  function FieldEnd(s: string, i: nat, depth: nat): (r: Option<nat>)
    requires depth >= 1
    ensures r.Some? ==> i <= r.value < |s| && s[r.value] == '}'
    decreases |s| - i
  {
    if i >= |s| then None
    else if s[i] == '{' then FieldEnd(s, i + 1, depth + 1)
    else if s[i] == '}' then (if depth == 1 then Some(i) else FieldEnd(s, i + 1, depth - 1))
    else FieldEnd(s, i + 1, depth)
  }

  /** Characters that make a field more than a bare keyword name. */
  predicate IsFieldSyntax(c: char) {
    c in "{}.[!:"
  }

  /** A name `"{name}"` looks up as a keyword argument. */
  predicate IsFieldName(name: string) {
    name != "" && !AllDigits(name) && forall k :: 0 <= k < |name| ==> !IsFieldSyntax(name[k])
  }

  /** What the text between a field's braces means. */
  function FieldToken(content: string): (r: Result<Token, FormatError>)
    ensures r.Ok? <==> IsFieldName(content)
    ensures r.Ok? ==> r.value == Field(content)
  {
    if exists k :: 0 <= k < |content| && IsFieldSyntax(content[k]) then Err(UnsupportedField(content))
    else if AllDigits(content) then Err(PositionalField)
    else Ok(Field(content))
  }

  function Cons(t: Token, rest: (seq<Token>, Option<FormatError>)): (seq<Token>, Option<FormatError>) {
    ([t] + rest.0, rest.1)
  }

  /** The tokens of a template up to the first syntax error, and that error. */
  function Lex(s: string): (r: (seq<Token>, Option<FormatError>))
    decreases |s|
  {
    if s == [] then ([], None)
    else if s[0] == '{' then
      if |s| >= 2 && s[1] == '{' then Cons(Char('{'), Lex(s[2..]))
      else
        match FieldEnd(s, 1, 1)
        case None => ([], Some(LoneOpenBrace))
        case Some(j) =>
          match FieldToken(s[1..j])
          case Err(e) => ([], Some(e))
          case Ok(t) => Cons(t, Lex(s[j + 1..]))
    else if s[0] == '}' then
      if |s| >= 2 && s[1] == '}' then Cons(Char('}'), Lex(s[2..]))
      else ([], Some(LoneCloseBrace))
    else Cons(Char(s[0]), Lex(s[1..]))
  }

  /** Every placeholder among the tokens names one of the arguments. */
  predicate FieldsPresent(ts: seq<Token>, fields: map<string, Value>) {
    forall k :: 0 <= k < |ts| && ts[k].Field? ==> ts[k].name in fields
  }

  /** Output of one token: the character, or `str(fields[name])`. */
  function RenderToken(t: Token, fields: map<string, Value>): (r: Result<string, FormatError>)
    ensures r.Ok? <==> (t.Field? ==> t.name in fields)
  {
    match t
    case Char(c) => Ok([c])
    case Field(n) => if n in fields then Ok(ToString(fields[n])) else Err(MissingField(n))
  }

  /** Output of the tokens, left to right. */
  function Render(ts: seq<Token>, fields: map<string, Value>): (r: Result<string, FormatError>)
    ensures r.Ok? <==> FieldsPresent(ts, fields)
  {
    if ts == [] then Ok("")
    else
      match RenderToken(ts[0], fields)
      case Err(e) => Err(e)
      case Ok(h) =>
        match Render(ts[1..], fields)
        case Err(e) => Err(e)
        case Ok(t) => Ok(h + t)
  }

  /** `template.format(**fields)` */
  function Format(template: string, fields: map<string, Value>): Result<string, FormatError> {
    var (ts, trailing) := Lex(template);
    match Render(ts, fields)
    case Err(e) => Err(e)
    case Ok(out) => if trailing.Some? then Err(trailing.value) else Ok(out)
  }

  /** Formatting succeeds exactly when the template is well formed and every
      placeholder in it names an argument. */
  lemma FormatOkIff(template: string, fields: map<string, Value>)
    ensures Format(template, fields).Ok? <==>
      Lex(template).1.None? && FieldsPresent(Lex(template).0, fields)
  {
  }

  /** The template text for one token, braces escaped. */
  function UnlexToken(t: Token): string {
    match t
    case Char(c) => if c == '{' then "{{" else if c == '}' then "}}" else [c]
    case Field(n) => "{" + n + "}"
  }

  /** The template text for the tokens. */
  function Unlex(ts: seq<Token>): string {
    if ts == [] then "" else UnlexToken(ts[0]) + Unlex(ts[1..])
  }

  predicate FieldNamesValid(ts: seq<Token>) {
    forall k :: 0 <= k < |ts| && ts[k].Field? ==> IsFieldName(ts[k].name)
  }

  lemma {:induction false} FieldEndSkipsName(s: string, i: nat, n: nat)
    requires i + n < |s| && s[i + n] == '}'
    requires forall k :: i <= k < i + n ==> s[k] != '{' && s[k] != '}'
    ensures FieldEnd(s, i, 1) == Some(i + n)
    decreases n
  {
    if n > 0 {
      FieldEndSkipsName(s, i + 1, n - 1);
    }
  }

  /** A character, braces doubled, reads back as that character. */
  lemma LexChar(c: char, rest: string)
    ensures Lex(UnlexToken(Char(c)) + rest) == Cons(Char(c), Lex(rest))
  {
    var s := UnlexToken(Char(c)) + rest;
    if c == '{' || c == '}' {
      assert s == [c, c] + rest;
      assert s[2..] == rest;
    } else {
      assert s == [c] + rest;
      assert s[1..] == rest;
    }
  }

  /** A bare name in braces reads back as that placeholder. */
  lemma LexField(n: string, rest: string)
    requires IsFieldName(n)
    ensures Lex(UnlexToken(Field(n)) + rest) == Cons(Field(n), Lex(rest))
  {
    var s := UnlexToken(Field(n)) + rest;
    assert s == "{" + n + "}" + rest;
    forall k | 1 <= k < 1 + |n|
      ensures s[k] != '{' && s[k] != '}'
    {
      assert s[k] == n[k - 1];
      assert !IsFieldSyntax(n[k - 1]);
    }
    FieldEndSkipsName(s, 1, |n|);
    assert s[1..1 + |n|] == n;
    assert s[|n| + 2..] == rest;
    assert s[1] == n[0] && s[1] != '{';
    assert FieldToken(n) == Ok(Field(n));
  }

  /** Reading back the text written for well-named tokens gives the tokens
      and no error. */
  lemma {:induction false} LexUnlex(ts: seq<Token>)
    requires FieldNamesValid(ts)
    ensures Lex(Unlex(ts)) == (ts, None)
  {
    if ts != [] {
      var rest := Unlex(ts[1..]);
      assert FieldNamesValid(ts[1..]) by {
        forall k | 0 <= k < |ts[1..]| && ts[1..][k].Field?
          ensures IsFieldName(ts[1..][k].name)
        {
          assert ts[1..][k] == ts[k + 1];
        }
      }
      LexUnlex(ts[1..]);
      assert Unlex(ts) == UnlexToken(ts[0]) + rest;
      assert ts == [ts[0]] + ts[1..];
      match ts[0]
      case Char(c) =>
        LexChar(c, rest);
      case Field(n) =>
        assert IsFieldName(n) by { assert ts[0].Field?; }
        LexField(n, rest);
    }
  }

  /** Literal text as tokens, one per character. */
  function Chars(text: string): (ts: seq<Token>)
    ensures |ts| == |text| && forall k :: 0 <= k < |text| ==> ts[k] == Char(text[k])
  {
    seq(|text|, k requires 0 <= k < |text| => Char(text[k]))
  }

  /** A template without braces renders to itself whatever the arguments. */
  lemma {:induction false} FormatPlainText(s: string, fields: map<string, Value>)
    requires '{' !in s && '}' !in s
    ensures Format(s, fields) == Ok(s)
  {
    var ts := Chars(s);
    assert FieldNamesValid(ts);
    assert Unlex(ts) == s by { UnlexChars(s); }
    LexUnlex(ts);
    RenderChars(s, fields);
  }

  lemma {:induction false} UnlexChars(s: string)
    requires '{' !in s && '}' !in s
    ensures Unlex(Chars(s)) == s
  {
    if s != [] {
      var ts := Chars(s);
      assert ts[1..] == Chars(s[1..]);
      UnlexChars(s[1..]);
      assert s == [s[0]] + s[1..];
    }
  }

  lemma {:induction false} RenderChars(s: string, fields: map<string, Value>)
    ensures Render(Chars(s), fields) == Ok(s)
  {
    if s != [] {
      var ts := Chars(s);
      assert ts[1..] == Chars(s[1..]);
      RenderChars(s[1..], fields);
      assert s == [s[0]] + s[1..];
    }
  }

  /** The output depends only on the arguments the placeholders name. */
  lemma {:induction false} RenderFrame(ts: seq<Token>, f1: map<string, Value>, f2: map<string, Value>)
    requires forall k :: 0 <= k < |ts| && ts[k].Field? ==>
      (ts[k].name in f1 <==> ts[k].name in f2) &&
      (ts[k].name in f1 ==> f1[ts[k].name] == f2[ts[k].name])
    ensures Render(ts, f1) == Render(ts, f2)
  {
    if ts != [] {
      assert forall k :: 0 <= k < |ts[1..]| ==> ts[1..][k] == ts[k + 1];
      RenderFrame(ts[1..], f1, f2);
    }
  }

  /** Rendering a concatenation renders the parts in order; the first
      missing field, left to right, is the error. */
  lemma {:induction false} RenderAppend(a: seq<Token>, b: seq<Token>, fields: map<string, Value>)
    ensures Render(a + b, fields) ==
      match Render(a, fields)
      case Err(e) => Err(e)
      case Ok(x) => (match Render(b, fields) case Err(e) => Err(e) case Ok(y) => Ok(x + y))
  {
    if a == [] {
      assert a + b == b;
      match Render(b, fields)
      case Err(_) =>
      case Ok(y) => assert "" + y == y;
    } else {
      assert (a + b)[0] == a[0];
      assert (a + b)[1..] == a[1..] + b;
      RenderAppend(a[1..], b, fields);
      match Render(a[1..], fields)
      case Err(_) =>
      case Ok(x) =>
        match Render(b, fields)
        case Err(_) =>
        case Ok(y) =>
          match RenderToken(a[0], fields)
          case Err(_) =>
          case Ok(h) => ConcatAssociates(h, x, y);
    }
  }

  lemma {:induction false} UnlexAppend(a: seq<Token>, b: seq<Token>)
    ensures Unlex(a + b) == Unlex(a) + Unlex(b)
  {
    if a == [] {
      assert a + b == b;
    } else {
      assert (a + b)[0] == a[0];
      assert (a + b)[1..] == a[1..] + b;
      UnlexAppend(a[1..], b);
      assert Unlex(a + b) == UnlexToken(a[0]) + Unlex(a[1..] + b);
      ConcatAssociates(UnlexToken(a[0]), Unlex(a[1..]), Unlex(b));
    }
  }

  /** Text followed by one placeholder: with the field given, the output is the
      text followed by the field's string form; without it, a KeyError.
      ("Hello {account_name}" with account_name "Acme" gives "Hello Acme".) */
  lemma FormatPlaceholder(text: string, name: string, fields: map<string, Value>)
    requires '{' !in text && '}' !in text
    requires IsFieldName(name)
    ensures name in fields ==> Format(text + "{" + name + "}", fields) == Ok(text + ToString(fields[name]))
    ensures name !in fields ==> Format(text + "{" + name + "}", fields) == Err(MissingField(name))
  {
    var field := [Field(name)];
    var ts := Chars(text) + field;
    assert Lex(text + "{" + name + "}") == (ts, None) by {
      assert FieldNamesValid(ts) by {
        forall k | 0 <= k < |ts| && ts[k].Field?
          ensures IsFieldName(ts[k].name)
        {
          assert k >= |text| && ts[k] == Field(name);
        }
      }
      assert Unlex(ts) == text + "{" + name + "}" by {
        UnlexChars(text);
        UnlexAppend(Chars(text), field);
        assert Unlex(field) == "{" + name + "}" + "";
      }
      LexUnlex(ts);
    }
    assert Render(ts, fields) == (if name in fields then Ok(text + ToString(fields[name])) else Err(MissingField(name))) by {
      RenderChars(text, fields);
      RenderAppend(Chars(text), field, fields);
      assert field[1..] == [];
      if name in fields {
        assert Render(field, fields) == Ok(ToString(fields[name]) + "");
        assert ToString(fields[name]) + "" == ToString(fields[name]);
      }
    }
  }
}
