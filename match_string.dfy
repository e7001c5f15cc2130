/**
  The match-rule syntax of busactd_match_new_from_string, as values.

  A rule is a whitespace-separated list of `key=value` words. The key
  selects the first of sender, path, interface, member and arg of which it
  is a case-insensitive prefix; the value loses one pair of surrounding
  quotes; a later word for the same field overrides an earlier one; words
  with an empty value or an unknown key are ignored.
*/
module MatchString {
  import opened Wrappers
  import opened Types

  /** WHITESPACE of the shared utilities, the separators FOREACH_WORD splits on. */
  predicate IsSpace(c: char)
  {
    c == ' ' || c == '\t' || c == '\n' || c == '\r'
  }

  /** The first position at or after `i` that is not whitespace, or |s| when there is none. */
  function SkipSpace(s: string, i: nat): (j: nat)
    requires i <= |s|
    ensures i <= j <= |s|
    ensures j < |s| ==> !IsSpace(s[j])
    decreases |s| - i
  {
    if i == |s| || !IsSpace(s[i]) then i else SkipSpace(s, i + 1)
  }

  /** The first position at or after `i` that is whitespace, or |s| when there is none. */
  function WordEnd(s: string, i: nat): (j: nat)
    requires i <= |s|
    ensures i <= j <= |s|
    ensures j < |s| ==> IsSpace(s[j])
    ensures i < |s| && !IsSpace(s[i]) ==> i < j
    decreases |s| - i
  {
    if i == |s| || IsSpace(s[i]) then i else WordEnd(s, i + 1)
  }

  /** A word as FOREACH_WORD yields it: non-empty and free of whitespace. */
  predicate IsWord(w: string)
  {
    |w| > 0 && forall j | 0 <= j < |w| :: !IsSpace(w[j])
  }

  /** Everything SkipSpace passes over is whitespace. */
  lemma {:induction false} SkipSpaceSpan(s: string, i: nat)
    requires i <= |s|
    ensures forall k | i <= k < SkipSpace(s, i) :: IsSpace(s[k])
    decreases |s| - i
  {
    if i < |s| && IsSpace(s[i]) {
      SkipSpaceSpan(s, i + 1);
    }
  }

  /** Everything WordEnd passes over is a word. */
  lemma {:induction false} WordEndSpan(s: string, i: nat)
    requires i <= |s|
    ensures forall k | i <= k < WordEnd(s, i) :: !IsSpace(s[k])
    decreases |s| - i
  {
    if i < |s| && !IsSpace(s[i]) {
      WordEndSpan(s, i + 1);
    }
  }

  /** The words FOREACH_WORD visits from position `i` on, in order. */
  function WordsFrom(s: string, i: nat): seq<string>
    requires i <= |s|
    decreases |s| - i
  {
    var a := SkipSpace(s, i);
    if a == |s| then []
    else
      var b := WordEnd(s, a);
      assert a < b;
      [s[a..b]] + WordsFrom(s, b)
  }

  /** The words FOREACH_WORD visits in the whole text. */
  function Words(s: string): seq<string>
  {
    WordsFrom(s, 0)
  }

  /** Words joined with single spaces: the canonical way to write a rule. */
  function Join(ws: seq<string>): (s: string)
    ensures ws == [] ==> s == []
    ensures ws != [] && IsWord(ws[0]) ==> |s| > 0 && !IsSpace(s[0])
  {
    if ws == [] then []
    else if |ws| == 1 then ws[0]
    else ws[0] + " " + Join(ws[1..])
  }

  /** FOREACH_WORD yields only words: each is non-empty and free of whitespace. */
  lemma {:induction false} WordsAreWords(s: string, i: nat)
    requires i <= |s|
    ensures forall k | 0 <= k < |WordsFrom(s, i)| :: IsWord(WordsFrom(s, i)[k])
    decreases |s| - i
  {
    var a := SkipSpace(s, i);
    if a < |s| {
      var b := WordEnd(s, a);
      WordEndSpan(s, a);
      WordsAreWords(s, b);
      assert IsWord(s[a..b]);
    }
  }

  /** Whitespace at the current position does not change the words that follow. */
  lemma WordsFromSkip(s: string, i: nat)
    requires i < |s| && IsSpace(s[i])
    ensures WordsFrom(s, i) == WordsFrom(s, i + 1)
  {
    assert SkipSpace(s, i) == SkipSpace(s, i + 1);
  }

  /** Skipping whitespace in a concatenation, past its first part, happens in the second part. */
  lemma {:induction false} SkipSpaceShift(p: string, q: string, i: nat)
    requires i <= |q|
    ensures SkipSpace(p + q, |p| + i) == |p| + SkipSpace(q, i)
    decreases |q| - i
  {
    if i < |q| {
      assert (p + q)[|p| + i] == q[i];
      if IsSpace(q[i]) {
        SkipSpaceShift(p, q, i + 1);
      }
    }
  }

  /** A word ends in a concatenation, past its first part, where it ends in the second part. */
  lemma {:induction false} WordEndShift(p: string, q: string, i: nat)
    requires i <= |q|
    ensures WordEnd(p + q, |p| + i) == |p| + WordEnd(q, i)
    decreases |q| - i
  {
    if i < |q| {
      assert (p + q)[|p| + i] == q[i];
      if !IsSpace(q[i]) {
        WordEndShift(p, q, i + 1);
      }
    }
  }

  /** A slice of the second part of a concatenation, taken through the concatenation. */
  lemma SliceShift(p: string, q: string, a: nat, b: nat)
    requires a <= b <= |q|
    ensures (p + q)[|p| + a..|p| + b] == q[a..b]
  {
    assert forall k | 0 <= k < b - a :: (p + q)[|p| + a..|p| + b][k] == q[a..b][k];
  }

  /** One step of FOREACH_WORD: the word at the next non-blank position, then the rest. */
  lemma WordsFromStep(s: string, i: nat)
    requires i <= |s| && SkipSpace(s, i) < |s|
    ensures WordsFrom(s, i) == [s[SkipSpace(s, i)..WordEnd(s, SkipSpace(s, i))]] + WordsFrom(s, WordEnd(s, SkipSpace(s, i)))
  {
  }

  /** The words of a concatenation, from a position past its first part, are those of the second part. */
  lemma {:induction false} WordsFromShift(p: string, q: string, i: nat)
    requires i <= |q|
    ensures WordsFrom(p + q, |p| + i) == WordsFrom(q, i)
    decreases |q| - i
  {
    var s := p + q;
    SkipSpaceShift(p, q, i);
    var a := SkipSpace(q, i);
    if a < |q| {
      var b := WordEnd(q, a);
      WordEndShift(p, q, a);
      SliceShift(p, q, a, b);
      WordsFromShift(p, q, b);
      WordsFromStep(s, |p| + i);
      WordsFromStep(q, i);
    }
  }

  /** A word ends at the first whitespace after it: a word that fills the text ends at its end. */
  lemma {:induction false} WordEndOfWord(s: string, i: nat, j: nat)
    requires i <= j <= |s| && (j == |s| || IsSpace(s[j]))
    requires forall k | i <= k < j :: !IsSpace(s[k])
    ensures WordEnd(s, i) == j
    decreases j - i
  {
    if i < j {
      WordEndOfWord(s, i + 1, j);
    }
  }

  /** A single word splits into itself. */
  lemma WordsOne(w: string)
    requires IsWord(w)
    ensures Words(w) == [w]
  {
    assert SkipSpace(w, 0) == 0;
    WordEndOfWord(w, 0, |w|);
    assert w[0..|w|] == w;
    assert WordsFrom(w, |w|) == [];
  }

  /** A word followed by a space and more text splits into that word and the words of the rest. */
  lemma WordsCons(w: string, rest: string)
    requires IsWord(w)
    ensures Words(w + " " + rest) == [w] + Words(rest)
  {
    var s := w + " " + rest;
    assert s == (w + " ") + rest;
    assert forall k | 0 <= k < |w| :: s[k] == w[k];
    assert s[|w|] == ' ';
    WordEndOfWord(s, 0, |w|);
    assert s[0..|w|] == w;
    WordsFromSkip(s, |w|);
    WordsFromShift(w + " ", rest, 0);
  }

  /** Splitting is the inverse of joining with single spaces. */
  lemma {:induction false} WordsJoin(ws: seq<string>)
    requires forall i | 0 <= i < |ws| :: IsWord(ws[i])
    ensures Words(Join(ws)) == ws
    decreases |ws|
  {
    if |ws| == 1 {
      WordsOne(ws[0]);
    } else if |ws| > 1 {
      WordsCons(ws[0], Join(ws[1..]));
      WordsJoin(ws[1..]);
    }
  }

  /** ASCII tolower, as strncasecmp applies it in the C locale. */
  function Lower(c: char): (r: char)
    ensures 'A' <= c <= 'Z' ==> 'a' <= r <= 'z' && r as int - c as int == 32
    ensures !('A' <= c <= 'Z') ==> r == c
  {
    if 'A' <= c <= 'Z' then (c as int + 32) as char else c
  }

  /**
    strncaseeq(key, name, |key|): the key is a case-insensitive prefix of
    the name. The empty key is a prefix of every name.
  */
  predicate KeyNames(key: string, name: string)
  {
    |key| <= |name| && SamePrefixFrom(key, name, 0)
  }

  /** The characters of `key` from position `i` on equal those of `name`, ignoring case. */
  predicate SamePrefixFrom(key: string, name: string, i: nat)
    requires i <= |key| <= |name|
    decreases |key| - i
  {
    i == |key| || (Lower(key[i]) == Lower(name[i]) && SamePrefixFrom(key, name, i + 1))
  }

  /** The five fields a rule can set, in the order the keys are tried. */
  datatype Field = Sender | Path | Interface | Member | Arg

  /** The name a key is compared with, spelled in lower case: only the key's letter case is folded. */
  function Name(g: Field): (n: string)
    ensures forall i | 0 <= i < |n| :: 'a' <= n[i] <= 'z'
  {
    match g
    case Sender => "sender"
    case Path => "path"
    case Interface => "interface"
    case Member => "member"
    case Arg => "arg"
  }

  /** The position of a field in the chain of comparisons. */
  function Rank(g: Field): (r: nat)
    ensures r < 5
  {
    match g
    case Sender => 0
    case Path => 1
    case Interface => 2
    case Member => 3
    case Arg => 4
  }

  /** The field a key selects: the first whose name it is a prefix of, if any. */
  function FieldOf(key: string): (r: Option<Field>)
    ensures r.Some? ==> KeyNames(key, Name(r.value))
  {
    if KeyNames(key, "sender") then Some(Sender)
    else if KeyNames(key, "path") then Some(Path)
    else if KeyNames(key, "interface") then Some(Interface)
    else if KeyNames(key, "member") then Some(Member)
    else if KeyNames(key, "arg") then Some(Arg)
    else None
  }

  /**
    The chain of comparisons: a key selects a field exactly when it is a
    prefix of that field's name and of no name tried earlier, and selects
    nothing exactly when it is a prefix of no name.
  */
  lemma FieldOfFirst(key: string)
    ensures FieldOf(key).Some? ==> forall g: Field | Rank(g) < Rank(FieldOf(key).value) :: !KeyNames(key, Name(g))
    ensures FieldOf(key).None? <==> forall g: Field :: !KeyNames(key, Name(g))
  {
  }

  /** Examples of FieldOfFirst: full field names select their field in any letter case. */
  lemma FullKeys()
    ensures FieldOf("SENDER") == Some(Sender) && FieldOf("Path") == Some(Path)
    ensures FieldOf("interface") == Some(Interface) && FieldOf("Member") == Some(Member)
    ensures FieldOf("ARG") == Some(Arg)
  {
    assert KeyNames("SENDER", "sender");
    assert !KeyNames("Path", "sender") && KeyNames("Path", "path");
    assert !KeyNames("interface", "sender") && !KeyNames("interface", "path");
    assert !KeyNames("Member", "sender") && !KeyNames("Member", "path") && !KeyNames("Member", "interface");
    assert !KeyNames("ARG", "sender") && !KeyNames("ARG", "path") && !KeyNames("ARG", "interface");
    assert !KeyNames("ARG", "member") && KeyNames("ARG", "arg");
  }

  /** Examples of FieldOfFirst: the empty key selects sender, and single letters pick the first field they begin. */
  lemma ShortKeys()
    ensures FieldOf("") == Some(Sender)
    ensures FieldOf("S") == Some(Sender) && FieldOf("p") == Some(Path) && FieldOf("I") == Some(Interface)
    ensures FieldOf("m") == Some(Member) && FieldOf("a") == Some(Arg)
    ensures FieldOf("x") == None && FieldOf("senders") == None
  {
    assert !KeyNames("p", "sender");
    assert !KeyNames("I", "sender") && !KeyNames("I", "path");
    assert !KeyNames("m", "sender") && !KeyNames("m", "path") && !KeyNames("m", "interface");
    assert !KeyNames("a", "sender") && !KeyNames("a", "path") && !KeyNames("a", "interface");
    assert !KeyNames("a", "member");
    assert !KeyNames("x", "sender") && !KeyNames("x", "path") && !KeyNames("x", "interface");
    assert !KeyNames("x", "member") && !KeyNames("x", "arg");
  }

  /** strcspn(t, "="): the length of the key part of a word. */
  function EqIndex(t: string): (e: nat)
    ensures e <= |t|
    ensures forall i | 0 <= i < e :: t[i] != '='
    ensures e < |t| ==> t[e] == '='
  {
    if t == [] || t[0] == '=' then 0 else 1 + EqIndex(t[1..])
  }

  /** QUOTES of the shared utilities. */
  const Quotes: string := "\"'"

  /** Whether `v` is enclosed in a matching pair of quote characters. */
  predicate Quoted(v: string)
  {
    |v| >= 2 && v[0] in Quotes && v[|v| - 1] == v[0]
  }

  /** strdup_unquote with QUOTES: one surrounding pair of matching quotes is removed. */
  function Unquote(v: string): (r: string)
    ensures Quoted(v) ==> |r| + 2 == |v| && v == [v[0]] + r + [v[0]]
    ensures !Quoted(v) ==> r == v
  {
    if Quoted(v) then v[1..|v| - 1] else v
  }

  /** Quoting a value with either quote character and unquoting it gives it back. */
  lemma UnquoteQuote(x: string, q: char)
    requires q in Quotes
    ensures Unquote([q] + x + [q]) == x
  {
    assert ([q] + x + [q])[1..|x| + 1] == x;
  }

  /** Only one pair is removed: a doubly quoted value keeps the inner pair. */
  lemma UnquoteOnce(x: string, q: char)
    requires q in Quotes
    ensures Unquote([q, q] + x + [q, q]) == [q] + x + [q]
  {
    assert [q, q] + x + [q, q] == [q] + ([q] + x + [q]) + [q];
    UnquoteQuote([q] + x + [q], q);
  }

  /** The field a word assigns, and the value, when it assigns one. */
  function Assignment(t: string): (r: Option<(Field, string)>)
    ensures r.Some? ==> EqIndex(t) + 1 < |t| && r.value.1 == Unquote(t[EqIndex(t) + 1..])
  {
    var e := EqIndex(t);
    if e >= |t| - 1 then None
    else match FieldOf(t[..e])
      case None => None
      case Some(g) => Some((g, Unquote(t[e + 1..])))
  }

  /** The field `g` of a filter. */
  function Get(f: Filter, g: Field): (r: Option<string>)
  {
    match g
    case Sender => f.sender
    case Path => f.path
    case Interface => f.interface
    case Member => f.member
    case Arg => f.arg
  }

  /** The filter with field `g` set to `v` (the string replacing the field's pointer). */
  function Set(f: Filter, g: Field, v: string): (r: Filter)
    ensures Get(r, g) == Some(v)
    ensures forall h: Field | h != g :: Get(r, h) == Get(f, h)
  {
    match g
    case Sender => f.(sender := Some(v))
    case Path => f.(path := Some(v))
    case Interface => f.(interface := Some(v))
    case Member => f.(member := Some(v))
    case Arg => f.(arg := Some(v))
  }

  /** One iteration of the FOREACH_WORD loop. */
  function ApplyWord(f: Filter, t: string): Filter
  {
    match Assignment(t)
    case None => f
    case Some((g, v)) => Set(f, g, v)
  }

  /** The loop over all words, from the all-NULL filter of a fresh match. */
  function ParseWords(ts: seq<string>): Filter
  {
    if ts == [] then AnyFilter
    else ApplyWord(ParseWords(ts[..|ts| - 1]), ts[|ts| - 1])
  }

  /** Parsing one more word applies it to what the words before it built. */
  lemma ParseWordsSnoc(ts: seq<string>, t: string)
    ensures ParseWords(ts + [t]) == ApplyWord(ParseWords(ts), t)
  {
    assert (ts + [t])[..|ts|] == ts;
  }

  /** The filter a rule string denotes. */
  function ParseFilter(s: string): Filter
  {
    ParseWords(Words(s))
  }

  /** Whether word `t` assigns field `g`. */
  predicate Assigns(t: string, g: Field)
  {
    Assignment(t).Some? && Assignment(t).value.0 == g
  }

  /** The position of the last word satisfying `p`, if there is one. */
  function LastWhere(ts: seq<string>, p: string -> bool): (r: Option<nat>)
    ensures r.Some? ==> r.value < |ts| && p(ts[r.value])
  {
    if ts == [] then None
    else if p(ts[|ts| - 1]) then Some(|ts| - 1)
    else
      var r := LastWhere(ts[..|ts| - 1], p);
      assert r.Some? ==> ts[..|ts| - 1][r.value] == ts[r.value];
      r
  }

  /** No word after the one LastWhere finds satisfies `p`, and it finds none exactly when no word does. */
  lemma {:induction false} LastWhereIsLast(ts: seq<string>, p: string -> bool)
    ensures LastWhere(ts, p).Some? ==> forall j | LastWhere(ts, p).value < j < |ts| :: !p(ts[j])
    ensures LastWhere(ts, p).None? <==> forall j | 0 <= j < |ts| :: !p(ts[j])
  {
    if ts != [] && !p(ts[|ts| - 1]) {
      var init := ts[..|ts| - 1];
      LastWhereIsLast(init, p);
      assert forall j | 0 <= j < |init| :: init[j] == ts[j];
    }
  }

  /** The position of the last word that assigns field `g`: an independent reading of "later wins". */
  function LastAssigning(ts: seq<string>, g: Field): (r: Option<nat>)
    ensures r.Some? ==> r.value < |ts| && Assigns(ts[r.value], g)
  {
    LastWhere(ts, t => Assigns(t, g))
  }

  /** No word after the one LastAssigning finds assigns the field, and it finds none exactly when no word does. */
  lemma LastAssigningIsLast(ts: seq<string>, g: Field)
    ensures LastAssigning(ts, g).Some? ==> forall j | LastAssigning(ts, g).value < j < |ts| :: !Assigns(ts[j], g)
    ensures LastAssigning(ts, g).None? <==> forall j | 0 <= j < |ts| :: !Assigns(ts[j], g)
  {
    LastWhereIsLast(ts, t => Assigns(t, g));
  }

  /**
    Every field of the parsed filter is NULL exactly when no word assigns
    it, and otherwise holds the unquoted value of the last word that does.
  */
  lemma {:induction false} ParseWordsField(ts: seq<string>, g: Field)
    ensures Get(ParseWords(ts), g) ==
              match LastAssigning(ts, g)
              case None => None
              case Some(i) => Some(Assignment(ts[i]).value.1)
  {
    if ts != [] {
      var init := ts[..|ts| - 1];
      ParseWordsField(init, g);
      if !Assigns(ts[|ts| - 1], g) {
        assert LastAssigning(ts, g) == LastAssigning(init, g);
        match LastAssigning(init, g)
        case None =>
        case Some(i) => assert ts[i] == init[i];
      }
    }
  }

  /** strcspn stops at the first '=': a key free of '=' is measured exactly. */
  lemma {:induction false} EqIndexOfKey(key: string, rest: string)
    requires forall i | 0 <= i < |key| :: key[i] != '='
    ensures EqIndex(key + "=" + rest) == |key|
  {
    if key != [] {
      assert (key + "=" + rest)[1..] == key[1..] + "=" + rest;
      EqIndexOfKey(key[1..], rest);
    }
  }

  /** The lower-case name of a field is the first name it is a prefix of. */
  lemma NameSelects(g: Field)
    ensures FieldOf(Name(g)) == Some(g)
  {
  }

  /** Field names are keys: no '=' and no whitespace. */
  lemma NameIsKey(g: Field)
    ensures forall i | 0 <= i < |Name(g)| :: Name(g)[i] != '=' && !IsSpace(Name(g)[i])
  {
  }

  /** A word `key=value` assigns the key's field the unquoted value, when the value is not empty. */
  lemma AssignmentOf(key: string, val: string, g: Field)
    requires forall i | 0 <= i < |key| :: key[i] != '='
    requires val != [] && FieldOf(key) == Some(g)
    ensures Assignment(key + "=" + val) == Some((g, Unquote(val)))
  {
    var t := key + "=" + val;
    EqIndexOfKey(key, val);
    assert t[..|key|] == key && t[|key| + 1..] == val;
  }

  /** The rule `name=value`, for a value without whitespace or quotes, sets that field alone. */
  lemma {:induction false} ParseOneField(g: Field, v: string)
    requires IsWord(v) && !Quoted(v)
    ensures ParseFilter(Name(g) + "=" + v) == Set(AnyFilter, g, v)
  {
    var t := Name(g) + "=" + v;
    NameSelects(g);
    NameIsKey(g);
    assert forall i | 0 <= i < |t| :: !IsSpace(t[i]) by {
      forall i | 0 <= i < |t| ensures !IsSpace(t[i]) {
        if i > |Name(g)| { assert t[i] == v[i - |Name(g)| - 1]; }
      }
    }
    WordsOne(t);
    AssignmentOf(Name(g), v, g);
    assert [t][..0] == [];
    assert ParseWords([t]) == ApplyWord(AnyFilter, t);
  }

  /** The rule `name='value'` or `name="value"` sets that field to the value without its quotes. */
  lemma {:induction false} ParseQuotedField(g: Field, v: string, q: char)
    requires IsWord(v) && q in Quotes
    ensures ParseFilter(Name(g) + "=" + ([q] + v + [q])) == Set(AnyFilter, g, v)
  {
    var qv := [q] + v + [q];
    var t := Name(g) + "=" + qv;
    NameSelects(g);
    NameIsKey(g);
    assert IsWord(qv) by {
      forall i | 0 <= i < |qv| ensures !IsSpace(qv[i]) {
        if 0 < i < |qv| - 1 { assert qv[i] == v[i - 1]; }
      }
    }
    assert IsWord(t) by {
      forall i | 0 <= i < |t| ensures !IsSpace(t[i]) {
        if i > |Name(g)| { assert t[i] == qv[i - |Name(g)| - 1]; }
      }
    }
    WordsOne(t);
    AssignmentOf(Name(g), qv, g);
    UnquoteQuote(v, q);
    assert [t][..0] == [];
    assert ParseWords([t]) == ApplyWord(AnyFilter, t);
  }

  /** A word with an empty value, and a word whose key names no field, leave the filter unchanged. */
  lemma IgnoredWords(f: Filter, key: string)
    requires forall i | 0 <= i < |key| :: key[i] != '='
    ensures ApplyWord(f, key + "=") == f
    ensures ApplyWord(f, "destination=x") == f
  {
    EqIndexOfKey(key, "");
    DestinationUnknown();
  }

  /** `destination` names no field of a rule, so an assignment to it is dropped. */
  lemma DestinationUnknown()
    ensures Assignment("destination=x") == None
  {
    var key := "destination";
    var t := key + "=" + "x";
    assert t == "destination=x";
    EqIndexOfKey(key, "x");
    assert |t[..|key|]| == 11;
  }
}
