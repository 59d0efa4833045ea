/** The tokenizer of the template engine, and the text its tokens stand for. */
module TemplateTokens {
  import opened Wrappers

  datatype Token =
    | End
    | Text(value: string)
    | Block(value: string)
    | EndBlock
    | Include(value: string)
    | Var(value: string)

  predicate AlphaNum(c: char) {
    'a' <= c <= 'z' || 'A' <= c <= 'Z' || '0' <= c <= '9' || c == '_' || c == '/' || c == '.'
  }

  predicate IsName(s: string) {
    forall k :: 0 <= k < |s| ==> AlphaNum(s[k])
  }

  // ----- the text of a token -----

  const BlockOpen := "{% block "
  const IncludeOpen := "{% include "
  const VarOpen := "{{ "
  const TagClose := " %}"
  const VarClose := " }}"
  const EndBlockTag := "{% endblock %}"

  function Unparse(t: Token): string {
    match t
    case End => ""
    case Text(value) => value
    case Block(name) => BlockOpen + name + TagClose
    case EndBlock => EndBlockTag
    case Include(name) => IncludeOpen + name + TagClose
    case Var(name) => VarOpen + name + VarClose
  }

  function UnparseAll(ts: seq<Token>): string {
    if ts == [] then "" else Unparse(ts[0]) + UnparseAll(ts[1..])
  }

  predicate IsTag(t: Token) {
    t.EndBlock? || ((t.Block? || t.Include? || t.Var?) && IsName(t.value))
  }

  // ----- tags in a text -----

  /** `word` stands at position `i`. */
  predicate StandsAt(s: string, i: nat, word: string) {
    i + |word| <= |s| && s[i..i + |word|] == word
  }

  /** The end of the name that starts at `i`. */
  function NameEnd(s: string, i: nat): (e: nat)
    requires i <= |s|
    ensures i <= e <= |s| && IsName(s[i..e]) && (e < |s| ==> !AlphaNum(s[e]))
    decreases |s| - i
  {
    if i < |s| && AlphaNum(s[i]) then NameEnd(s, i + 1) else i
  }

  /** The name between `open`, which starts at `i`, and `close`. */
  function NameAt(s: string, i: nat, open: string, close: string): (name: Option<string>)
    ensures name.Some? ==> IsName(name.value) && StandsAt(s, i, open + name.value + close)
  {
    if !StandsAt(s, i, open) then None
    else
      var from := i + |open|;
      var e := NameEnd(s, from);
      if !StandsAt(s, e, close) then None
      else
        assert s[i..e + |close|] == open + s[from..e] + close;
        Some(s[from..e])
  }

  /** The tag at position `i`, tried in the order of the tokenizer. */
  function TagAt(s: string, i: nat): (t: Option<Token>)
    ensures t.Some? ==> IsTag(t.value) && StandsAt(s, i, Unparse(t.value)) && |Unparse(t.value)| > 0
  {
    if NameAt(s, i, BlockOpen, TagClose).Some? then Some(Block(NameAt(s, i, BlockOpen, TagClose).value))
    else if StandsAt(s, i, EndBlockTag) then Some(EndBlock)
    else if NameAt(s, i, IncludeOpen, TagClose).Some? then Some(Include(NameAt(s, i, IncludeOpen, TagClose).value))
    else if NameAt(s, i, VarOpen, VarClose).Some? then Some(Var(NameAt(s, i, VarOpen, VarClose).value))
    else None
  }

  /** The first position from `i` on where a tag stands; the length of the text without one. */
  function NextTag(s: string, i: nat): (k: nat)
    requires i <= |s|
    ensures i <= k <= |s| && (k < |s| ==> TagAt(s, k).Some?)
    decreases |s| - i
  {
    if i == |s| || TagAt(s, i).Some? then i else NextTag(s, i + 1)
  }

  lemma {:induction false} NoTagBefore(s: string, i: nat, j: nat)
    requires i <= |s| && i <= j < NextTag(s, i)
    ensures TagAt(s, j).None?
    decreases j - i
  {
    hide TagAt;
    if i < j {
      NoTagBefore(s, i + 1, j);
    }
  }

  /** The tokens of the text from `i` on, without the final End. */
  function TokensFrom(s: string, i: nat): seq<Token>
    requires i <= |s|
    decreases |s| - i
  {
    if i == |s| then []
    else if TagAt(s, i).Some? then
      var t := TagAt(s, i).value;
      [t] + TokensFrom(s, i + |Unparse(t)|)
    else [Text(s[i..NextTag(s, i)])] + TokensFrom(s, NextTag(s, i))
  }

  function Tokens(s: string): seq<Token> {
    TokensFrom(s, 0)
  }

  // ----- writing the tokens gives the text -----

  lemma {:induction false} UnparseTokensFrom(s: string, i: nat)
    requires i <= |s|
    ensures UnparseAll(TokensFrom(s, i)) == s[i..]
    decreases |s| - i
  {
    hide TagAt, UnparseAll, Unparse, NextTag, StandsAt, IsTag;
    if i == |s| {
      UnparseCons([]);
    } else if TagAt(s, i).Some? {
      var t := TagAt(s, i).value;
      StandsIs(s, i, Unparse(t));
      UnparseTokensFrom(s, i + |Unparse(t)|);
      UnparseStep(s, i, i + |Unparse(t)|, t, TokensFrom(s, i + |Unparse(t)|));
    } else {
      var k := NextTag(s, i);
      UnparseTokensFrom(s, k);
      UnparseText(s[i..k]);
      UnparseStep(s, i, k, Text(s[i..k]), TokensFrom(s, k));
    }
  }

  lemma UnparseStep(s: string, i: nat, j: nat, t: Token, rest: seq<Token>)
    requires i <= j <= |s| && Unparse(t) == s[i..j] && UnparseAll(rest) == s[j..]
    ensures UnparseAll([t] + rest) == s[i..]
  {
    hide Unparse;
    UnparseCons([t] + rest);
    assert ([t] + rest)[1..] == rest;
    assert s[i..] == s[i..j] + s[j..];
  }

  lemma StandsIs(s: string, i: nat, word: string)
    requires StandsAt(s, i, word)
    ensures i + |word| <= |s| && s[i..i + |word|] == word
  {
  }

  lemma UnparseCons(ts: seq<Token>)
    ensures UnparseAll(ts) == if ts == [] then "" else Unparse(ts[0]) + UnparseAll(ts[1..])
  {
  }

  lemma UnparseText(text: string)
    ensures Unparse(Text(text)) == text
  {
  }

  /** For every text. */
  lemma UnparseTokens(s: string)
    ensures UnparseAll(Tokens(s)) == s
  {
    UnparseTokensFrom(s, 0);
  }

  // ----- tokenizing written tokens -----

  predicate TagFree(s: string) {
    forall i :: 0 <= i < |s| ==> TagAt(s, i).None?
  }

  /** Tags, and between them non-empty pieces of text in which no tag stands. */
  predicate Normal(ts: seq<Token>) {
    && (forall k :: 0 <= k < |ts| ==> IsTag(ts[k]) || (ts[k].Text? && ts[k].value != "" && TagFree(ts[k].value)))
    && (forall k :: 0 <= k < |ts| - 1 ==> !(ts[k].Text? && ts[k + 1].Text?))
  }

  lemma {:induction false} NameEndIs(s: string, i: nat, e: nat)
    requires i <= e < |s| && !AlphaNum(s[e]) && forall k :: i <= k < e ==> AlphaNum(s[k])
    ensures NameEnd(s, i) == e
    decreases e - i
  {
    if i < e {
      NameEndIs(s, i + 1, e);
    }
  }

  /** A name that stands between its delimiters is found. */
  lemma NameIsAt(s: string, i: nat, open: string, close: string, name: string)
    requires IsName(name) && close != [] && !AlphaNum(close[0]) && StandsAt(s, i, open + name + close)
    ensures NameAt(s, i, open, close) == Some(name)
  {
    var from := i + |open|;
    var e := from + |name|;
    StandsInParts(s, i, open + name, close);
    StandsInParts(s, i, open, name);
    StandsMeans(s, e, close);
    assert s[e + 0] == close[0];
    assert s[from..e] == name;
    forall k | from <= k < e ensures AlphaNum(s[k]) {
      assert s[k] == s[from..e][k - from];
    }
    NameEndIs(s, from, e);
  }

  lemma StandsInParts(s: string, i: nat, a: string, b: string)
    requires StandsAt(s, i, a + b)
    ensures StandsAt(s, i, a) && StandsAt(s, i + |a|, b)
  {
    var m, n := i + |a|, i + |a| + |b|;
    assert s[i..m] == s[i..n][..|a|] == a;
    assert s[m..n] == s[i..n][|a|..] == b;
  }

  lemma DifferentAt(s: string, i: nat, word: string, k: nat)
    requires k < |word| && i + k < |s| && s[i + k] != word[k]
    ensures !StandsAt(s, i, word)
  {
    if i + |word| <= |s| {
      assert s[i..i + |word|][k] == s[i + k];
    }
  }

  /** A tag that stands at a position is the one that is found there. */
  lemma TagStands(s: string, i: nat, t: Token)
    requires IsTag(t) && StandsAt(s, i, Unparse(t))
    ensures TagAt(s, i) == Some(t)
  {
    hide NameAt, StandsAt;
    var word := Unparse(t);
    StandsMeans(s, i, word);
    match t
    case Block(name) => NameIsAt(s, i, BlockOpen, TagClose, name);
    case EndBlock =>
      assert word[3] == 'e';
      DifferentAt(s, i, BlockOpen, 3);
      NoNameAt(s, i, BlockOpen, TagClose);
    case Include(name) =>
      assert word[3] == 'i';
      DifferentAt(s, i, BlockOpen, 3);
      NoNameAt(s, i, BlockOpen, TagClose);
      DifferentAt(s, i, EndBlockTag, 3);
      NameIsAt(s, i, IncludeOpen, TagClose, name);
    case Var(name) =>
      assert word[1] == '{';
      DifferentAt(s, i, BlockOpen, 1);
      NoNameAt(s, i, BlockOpen, TagClose);
      DifferentAt(s, i, EndBlockTag, 1);
      DifferentAt(s, i, IncludeOpen, 1);
      NoNameAt(s, i, IncludeOpen, TagClose);
      NameIsAt(s, i, VarOpen, VarClose, name);
  }

  lemma StandsMeans(s: string, i: nat, word: string)
    requires StandsAt(s, i, word)
    ensures i + |word| <= |s| && forall k :: 0 <= k < |word| ==> s[i + k] == word[k]
  {
    forall k | 0 <= k < |word| ensures s[i + k] == word[k] {
      assert s[i..i + |word|][k] == s[i + k];
    }
  }

  lemma NoNameAt(s: string, i: nat, open: string, close: string)
    requires !StandsAt(s, i, open)
    ensures NameAt(s, i, open, close).None?
  {
  }

  /** Inside a tag, an opening brace stands only second, and then a blank follows. */
  lemma BraceInTag(t: Token, k: nat)
    requires IsTag(t) && 0 < k < |Unparse(t)| && Unparse(t)[k] == '{'
    ensures k == 1 && |Unparse(t)| > 2 && Unparse(t)[2] == ' '
  {
  }

  /** No tag begins in the text before a tag, or in tag-free text, and ends behind it. */
  lemma NoTagInText(s: string, i: nat, text: string, more: string)
    requires i < |text| && s == text + more && TagFree(text)
    requires more == "" || (|more| >= 2 && more[0] == '{' && more[1] != ' ')
    ensures TagAt(s, i).None?
  {
    hide TagAt;
    if TagAt(s, i).Some? {
      var t := TagAt(s, i).value;
      var word := Unparse(t);
      if i + |word| <= |text| {
        assert s[i..i + |word|] == text[i..i + |word|];
        TagStands(text, i, t);
      } else {
        StandsMeans(s, i, word);
        var k := |text| - i;
        assert word[k] == s[i + k] == more[0];
        assert k + 1 < |word| ==> word[k + 1] == s[i + k + 1] == more[1];
        BraceInTag(t, k);
      }
      assert false;
    }
  }

  lemma {:induction false} NextTagIs(s: string, i: nat, k: nat)
    requires i <= k <= |s| && (k < |s| ==> TagAt(s, k).Some?)
    requires forall j :: i <= j < k ==> TagAt(s, j).None?
    ensures NextTag(s, i) == k
    decreases k - i
  {
    hide TagAt;
    if i < k {
      NextTagIs(s, i + 1, k);
    }
  }

  /** What follows a piece of text begins with a brace, and not with a brace and a blank. */
  lemma TagBegins(ts: seq<Token>)
    requires ts != [] && IsTag(ts[0])
    ensures |UnparseAll(ts)| >= 2 && UnparseAll(ts)[0] == '{' && UnparseAll(ts)[1] != ' '
  {
  }

  /** The tokens of `done + more`, from `more` on, are those of `more` alone. */
  lemma {:induction false} TokensOfUnparsed(done: string, ts: seq<Token>)
    requires Normal(ts)
    ensures TokensFrom(done + UnparseAll(ts), |done|) == ts
    decreases |ts|
  {
    hide TagAt, IsTag, Unparse, StandsAt;
    var s := done + UnparseAll(ts);
    if ts != [] {
      var rest := ts[1..];
      var word := Unparse(ts[0]);
      assert s == (done + word) + UnparseAll(rest);
      TokensOfUnparsed(done + word, rest);
      if IsTag(ts[0]) {
        WordStands(s, done, word, UnparseAll(rest));
        TagStands(s, |done|, ts[0]);
      } else {
        UnparseText(ts[0].value);
        TextToken(s, done, ts);
      }
    }
  }

  lemma WordStands(s: string, done: string, word: string, more: string)
    requires s == done + word + more
    ensures StandsAt(s, |done|, word)
  {
  }

  lemma TextToken(s: string, done: string, ts: seq<Token>)
    requires Normal(ts) && ts != [] && !IsTag(ts[0]) && s == done + ts[0].value + UnparseAll(ts[1..])
    ensures TagAt(s, |done|).None? && NextTag(s, |done|) == |done| + |ts[0].value|
    ensures s[|done|..|done| + |ts[0].value|] == ts[0].value
  {
    hide TagAt, IsTag, UnparseAll, StandsAt, Normal, TagFree;
    NormalText(ts);
    var text, rest := ts[0].value, UnparseAll(ts[1..]);
    var e := |done| + |text|;
    assert s == done + (text + rest);
    if |ts| > 1 {
      TagBegins(ts[1..]);
      TagIsNext(s, done + text, ts[1..]);
    } else {
      NothingLeft(ts[1..]);
    }
    forall i | |done| <= i < e ensures TagAt(s, i).None? {
      NoTagInText(text + rest, i - |done|, text, rest);
      TagAtShifted(s, done, text + rest, i - |done|);
    }
    NextTagIs(s, |done|, e);
  }

  lemma NormalText(ts: seq<Token>)
    requires Normal(ts) && ts != [] && !IsTag(ts[0])
    ensures ts[0].Text? && ts[0].value != "" && TagFree(ts[0].value) && (|ts| > 1 ==> IsTag(ts[1..][0]))
  {
    hide IsTag, TagFree;
  }

  lemma NothingLeft(ts: seq<Token>)
    requires ts == []
    ensures UnparseAll(ts) == ""
  {
  }

  lemma TagIsNext(s: string, done: string, ts: seq<Token>)
    requires ts != [] && IsTag(ts[0]) && s == done + UnparseAll(ts)
    ensures TagAt(s, |done|).Some?
  {
    hide TagAt;
    WordStands(s, done, Unparse(ts[0]), UnparseAll(ts[1..]));
    TagStands(s, |done|, ts[0]);
  }

  /** What stands at a position does not depend on what is before it. */
  lemma TagAtShifted(s: string, done: string, more: string, i: nat)
    requires s == done + more && TagAt(more, i).None?
    ensures TagAt(s, |done| + i).None?
  {
    hide TagAt;
    if TagAt(s, |done| + i).Some? {
      var t := TagAt(s, |done| + i).value;
      StandsShifted(s, done, more, i, Unparse(t));
      TagStands(more, i, t);
      assert false;
    }
  }

  lemma StandsShifted(s: string, done: string, more: string, i: nat, word: string)
    requires s == done + more && StandsAt(s, |done| + i, word)
    ensures StandsAt(more, i, word)
  {
    assert s[|done| + i..|done| + i + |word|] == more[i..i + |word|];
  }

  /** Every normal list of tokens is read back from what it is written as. */
  lemma TokensUnparsed(ts: seq<Token>)
    requires Normal(ts)
    ensures Tokens(UnparseAll(ts)) == ts
  {
    TokensOfUnparsed("", ts);
    assert "" + UnparseAll(ts) == UnparseAll(ts);
  }

  /** The tags, as they are written. */
  lemma TagsAreWritten()
    ensures Unparse(Include("top")) == "{% include top %}" && Unparse(Block("row")) == "{% block row %}"
    ensures Unparse(EndBlock) == "{% endblock %}" && Unparse(Var("item")) == "{{ item }}"
  {
  }

  /** The tokens of any text are normal, so that tokenizing and writing are inverse to each other. */
  lemma {:induction false} TokensAreNormal(s: string, i: nat)
    requires i <= |s|
    ensures Normal(TokensFrom(s, i))
    ensures i < |s| && TagAt(s, i).Some? ==> !TokensFrom(s, i)[0].Text?
    decreases |s| - i
  {
    hide TagAt, IsTag, NextTag, Normal, TagFree, Unparse;
    TokensUnfold(s, i);
    if i == |s| {
      NothingIsNormal();
    } else {
      var ts := TokensFrom(s, i);
      if TagAt(s, i).Some? {
        TokensAreNormal(s, i + |Unparse(ts[0])|);
        TagsAreNoText(ts[0]);
      } else {
        var k := NextTag(s, i);
        TokensAreNormal(s, k);
        forall j | i <= j < k ensures TagAt(s, j).None? {
          NoTagBefore(s, i, j);
        }
        FreeBetween(s, i, k);
      }
      NormalCons(ts);
    }
  }

  lemma NothingIsNormal()
    ensures Normal([])
  {
  }

  lemma TagsAreNoText(t: Token)
    requires IsTag(t)
    ensures !t.Text?
  {
  }

  lemma NormalCons(ts: seq<Token>)
    requires ts != [] && Normal(ts[1..])
    requires IsTag(ts[0]) || (ts[0].Text? && ts[0].value != "" && TagFree(ts[0].value))
    requires |ts| > 1 ==> !(ts[0].Text? && ts[1].Text?)
    ensures Normal(ts)
  {
    hide IsTag, TagFree;
    forall k | 0 < k < |ts| ensures ts[k] == ts[1..][k - 1] {
    }
  }

  /** A piece of a text in which no tag begins is free of tags. */
  lemma FreeBetween(s: string, i: nat, k: nat)
    requires i < k <= |s| && forall j :: i <= j < k ==> TagAt(s, j).None?
    ensures TagFree(s[i..k])
  {
    hide TagAt;
    forall j | 0 <= j < k - i ensures TagAt(s[i..k], j).None? {
      if TagAt(s[i..k], j).Some? {
        var t := TagAt(s[i..k], j).value;
        WithinStands(s, i, k, j, Unparse(t));
        TagStands(s, i + j, t);
        assert false;
      }
    }
  }

  lemma WithinStands(s: string, i: nat, k: nat, j: nat, word: string)
    requires i <= k <= |s| && StandsAt(s[i..k], j, word)
    ensures StandsAt(s, i + j, word)
  {
    var at, n := i + j, |word|;
    StandsMeans(s[i..k], j, word);
    assert forall x :: 0 <= x < n ==> s[at + x] == s[i..k][j + x] == word[x];
  }

  // ----- the tokenizer -----

  /** The character at `i` of a C string: its terminator past the end. */
  function At(s: string, i: nat): char {
    if i < |s| then s[i] else '\0'
  }

  /** The name from `cursor` up to a blank and `mark` and a brace; -1 if another character comes first. */
  method MatchName(text: string, from: nat, mark: char) returns (m: int)
    requires from <= |text| && (mark == '%' || mark == '}')
    ensures m == if StandsAt(text, NameEnd(text, from), [' ', mark, '}']) then NameEnd(text, from) else -1
  {
    var cursor := from;
    ghost var e := NameEnd(text, from);
    StandsByChar(text, e, [' ', mark, '}']);
    while At(text, cursor) != '\0'
      invariant from <= cursor <= |text| && NameEnd(text, cursor) == NameEnd(text, from)
      decreases |text| - cursor
    {
      if At(text, cursor) == ' ' && At(text, cursor + 1) == mark && At(text, cursor + 2) == '}' {
        assert e == cursor;
        return cursor;
      }
      if !AlphaNum(text[cursor]) {
        assert e == cursor;
        return -1;
      }
      cursor := cursor + 1;
    }
    m := -1;
  }

  /** A word without terminators stands where its characters are. */
  lemma StandsByChar(s: string, i: nat, word: string)
    requires '\0' !in word && word != []
    ensures StandsAt(s, i, word) <==> forall k :: 0 <= k < |word| ==> At(s, i + k) == word[k]
  {
    if StandsAt(s, i, word) {
      StandsMeans(s, i, word);
    } else if i + |word| <= |s| {
      var k :| 0 <= k < |word| && s[i..i + |word|][k] != word[k];
      assert At(s, i + k) != word[k];
    } else {
      var k := if i < |s| then |s| - i else 0;
      assert word[k] in word && At(s, i + k) == '\0';
    }
  }

  /** `match_var`: how many characters the variable takes, or -1. */
  method MatchVar(text: string, pos: nat) returns (m: int, result: string)
    requires pos <= |text|
    ensures NameAt(text, pos, VarOpen, VarClose) == if m > 0 then Some(result) else None
    ensures m > 0 ==> m == |Unparse(Var(result))|
  {
    m, result := -1, "";
    StandsByChar(text, pos, VarOpen);
    if At(text, pos) != '{' || At(text, pos + 1) != '{' || At(text, pos + 2) != ' ' {
      return;
    }
    var e := MatchName(text, pos + 3, '}');
    if e >= 0 {
      result := text[pos + 3..e];
      m := e + 3 - pos;
    }
  }

  /** `match_tag_with_param` for the tag `tag`. */
  method MatchTagWithParam(tag: string, text: string, pos: nat) returns (m: int, result: string)
    requires pos <= |text| && IsName(tag)
    ensures NameAt(text, pos, "{% " + tag + " ", TagClose) == if m > 0 then Some(result) else None
    ensures m > 0 ==> m == |tag| + |result| + 7
  {
    hide StandsAt, NameEnd;
    m, result := -1, "";
    ghost var open := "{% " + tag + " ";
    OpensWith(text, pos, tag);
    if At(text, pos) != '{' || At(text, pos + 1) != '%' || At(text, pos + 2) != ' ' {
      return;
    }
    if !StandsAt(text, pos + 3, tag) {
      return;
    }
    var param := pos + 3 + |tag|;
    if At(text, param) != ' ' {
      return;
    }
    param := param + 1;
    var e := MatchName(text, param, '%');
    if e >= 0 {
      result := text[param..e];
      m := e + 3 - pos;
    }
  }

  lemma OpensWith(s: string, i: nat, tag: string)
    requires i <= |s|
    ensures StandsAt(s, i, "{% " + tag + " ")
       <==> At(s, i) == '{' && At(s, i + 1) == '%' && At(s, i + 2) == ' ' && StandsAt(s, i + 3, tag) && At(s, i + 3 + |tag|) == ' '
    ensures StandsAt(s, i, "{% " + tag + " ") ==> i + |tag| + 4 <= |s|
  {
    var word := "{% " + tag + " ";
    if StandsAt(s, i, word) {
      StandsMeans(s, i, word);
      assert word[0] == '{' && word[1] == '%' && word[2] == ' ' && word[3 + |tag|] == ' ';
      assert forall k :: 0 <= k < |tag| ==> word[k + 3] == tag[k];
      assert s[i + 3..i + 3 + |tag|] == tag;
    }
    if At(s, i) == '{' && At(s, i + 1) == '%' && At(s, i + 2) == ' ' && StandsAt(s, i + 3, tag) && At(s, i + 3 + |tag|) == ' ' {
      StandsMeans(s, i + 3, tag);
      assert s[i..i + |word|] == word;
    }
  }

  /** Reads a text token by token. A tag met behind a piece of text is kept for the next call. */
  class Tokenizer {
    const text: string
    var pos: nat
    var peek: Token
    var peeking: bool

    constructor (text: string)
      ensures Valid() && this.text == text && Rest() == Tokens(text)
    {
      this.text := text;
      pos := 0;
      peek := End;
      peeking := false;
    }

    ghost predicate Valid()
      reads this
    {
      pos <= |text| && (peeking && peek == End ==> pos == |text|)
    }

    /** The tokens still to come. */
    ghost function Rest(): seq<Token>
      reads this
      requires Valid()
    {
      if peeking && peek != End then [peek] + TokensFrom(text, pos) else TokensFrom(text, pos)
    }

    /** The next token, End when there are no more. */
    method Next() returns (token: Token)
      requires Valid()
      modifies this
      ensures Valid()
      ensures token == End <==> old(Rest()) == []
      ensures old(Rest()) == [] ==> Rest() == []
      ensures old(Rest()) != [] ==> token == old(Rest())[0] && Rest() == old(Rest())[1..]
    {
      hide TagAt, Unparse, NextTag, TokensFrom;
      TokensUnfold(text, pos);
      if peeking {
        peeking := false;
        return peek;
      }
      peek := End;
      var textpos, textlen := pos, 0;
      ghost var next := NextTag(text, pos);
      while pos < |text|
        invariant textpos <= pos <= next <= |text| && textlen == pos - textpos && next == NextTag(text, pos)
        invariant peek == End && (peeking <==> pos > textpos)
        decreases |text| - pos
      {
        var m, tag := FindTag();
        if m > 0 {
          peek := tag;
          NextTagHere(text, pos);
          pos := pos + m;
          break;
        }
        NextTagLater(text, pos);
        textlen := textlen + 1;
        pos := pos + 1;
        peeking := true;
      }
      if peeking {
        NextTagLater(text, textpos);
        TokensUnfold(text, next);
        token := Text(text[textpos..textpos + textlen]);
        return;
      }
      token := peek;
    }

    /** The tag at the current position, with its length; -1 if there is none. */
    method FindTag() returns (m: int, tag: Token)
      requires pos < |text|
      ensures TagAt(text, pos) == if m > 0 then Some(tag) else None
      ensures m > 0 ==> m == |Unparse(tag)| && tag != End
    {
      hide NameAt, StandsAt;
      assert BlockOpen == "{% " + "block" + " " && IncludeOpen == "{% " + "include" + " ";
      var name;
      m, name := MatchTagWithParam("block", text, pos);
      if m > 0 {
        tag := Block(name);
      } else if StandsAt(text, pos, EndBlockTag) {
        m, tag := |EndBlockTag|, EndBlock;
      } else {
        m, name := MatchTagWithParam("include", text, pos);
        tag := Include(name);
        if m <= 0 {
          m, name := MatchVar(text, pos);
          tag := Var(name);
        }
      }
    }
  }

  lemma TokensUnfold(s: string, i: nat)
    requires i <= |s|
    ensures TokensFrom(s, i)
         == if i == |s| then []
            else if TagAt(s, i).Some? then
              var t := TagAt(s, i).value;
              [t] + TokensFrom(s, i + |Unparse(t)|)
            else [Text(s[i..NextTag(s, i)])] + TokensFrom(s, NextTag(s, i))
  {
  }

  lemma NextTagHere(s: string, i: nat)
    requires i < |s| && TagAt(s, i).Some?
    ensures NextTag(s, i) == i
  {
  }

  lemma NextTagLater(s: string, i: nat)
    requires i < |s|
    ensures TagAt(s, i).None? ==> NextTag(s, i) == NextTag(s, i + 1)
    ensures TagAt(s, i).Some? ==> NextTag(s, i) == i
  {
  }
}
