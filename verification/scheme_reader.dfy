/**
 * The reader of the Scheme interpreter: recursive descent over a token
 * array with a mutable position.  The lexer is outside the model; its
 * output is the token sequence handed to `Load`.
 *
 * `Parse` and `Items` are the reader as functions of the tokens, the start
 * position and the quote level, returning the value read (or `None`) and the
 * position the reader is left on.  `Parser` is the stateful reader, proved
 * against them.  `Meaning` is an independent description of the value each
 * well-bracketed form stands for, and `ReadForm` proves the reader computes
 * it.
 */
module SchemeReader {
  import opened Options
  import opened SchemeData

  /** The lexer's tokens.  Whitespace is skipped by the lexer and never reaches the reader. */
  datatype Token =
    | Int(text: string)
    | Real(text: string)
    | Identifier(text: string)
    | String(text: string)
    | OpenBracket
    | CloseBracket
    | Quote
    | Error

  /** A token that can be the last one of a form: a leaf or a closing bracket. */
  predicate EndsForm(t: Token) {
    t.Int? || t.Real? || t.Identifier? || t.String? || t.CloseBracket?
  }

  /**
   * What quoting does to a value: it and every node below it carry a quote
   * level of at least 1, and none of them is a `Variable` or a `List`.
   */
  predicate Quoted(d: Data)
    decreases d
  {
    && d.quoteLevel >= 1
    && d.kind != Variable && d.kind != List
    && forall k :: 0 <= k < |d.list| ==> Quoted(d.list[k])
  }

  predicate AllQuoted(ds: seq<Data>) {
    forall k :: 0 <= k < |ds| ==> Quoted(ds[k])
  }

  /**
   * The value a bracketed list read at level `q` becomes.  The empty list at
   * level 1 is `NULL_SYM`; every other quoted list is a `Symbol` carrying its
   * level, and gets `NULL_SYM` appended when it has children; an unquoted
   * list is a `List` and never gets the sentinel.  The special case for the
   * empty list at level 1 builds the same value the general rule would.
   */
  function ListValue(children: seq<Data>, q: nat): (d: Data)
    ensures d == NullSym() <==> q == 1 && children == []
    ensures d.kind == (if q > 0 then Symbol else List) && d.quoteLevel == q && d.text == ""
    ensures d.list == children + (if q > 0 && children != [] then [NullSym()] else [])
  {
    var node := if q > 0 then Data([], "", Symbol, q) else NewList();
    if q == 1 && children == [] then NullSym()
    else if node.kind == Symbol && children != [] then node.(list := children + [NullSym()])
    else node.(list := children)
  }

  /** A quoted list of quoted children is quoted, the `NULL_SYM` sentinel included. */
  lemma ListValueQuoted(children: seq<Data>, q: nat)
    requires q > 0 && AllQuoted(children)
    ensures Quoted(ListValue(children, q))
  {
    var d := ListValue(children, q);
    assert Quoted(NullSym());
    assert forall k :: 0 <= k < |d.list| ==> Quoted(d.list[k]) by {
      forall k | 0 <= k < |d.list|
        ensures Quoted(d.list[k])
      {
        if k < |children| {
          assert d.list[k] == children[k];
        } else {
          assert d.list[k] == NullSym();
        }
      }
    }
  }

  /**
   * `parse_next` at position `i` and quote level `q`: the value read and the
   * position the reader is left on.  A successful read leaves the position
   * on the form's last token; a quote is consumed and the next form is read
   * one level higher.
   */
  function Parse(toks: seq<Token>, i: nat, q: nat): (r: (Option<Data>, nat))
    ensures i <= r.1 && (i <= |toks| ==> r.1 <= |toks|)
    ensures r.0.Some? ==> r.1 < |toks|
    decreases |toks| - i, 0
  {
    if i >= |toks| then (None, i)
    else match toks[i]
      case Int(s) => (Some(FromStringQuoted(Integer, s, q)), i)
      case Real(s) => (Some(FromStringQuoted(DataType.Real, s, q)), i)
      case Identifier(s) => (Some(FromStringQuoted(if q == 0 then Variable else Symbol, s, q)), i)
      case Quote => Parse(toks, i + 1, q + 1)
      case String(s) => (Some(FromStringQuoted(Symbol, s, q)), i)
      case OpenBracket =>
        var (children, k) := Items(toks, i + 1, q, []);
        if children.None? then (None, k) else (Some(ListValue(children.value, q)), k)
      case CloseBracket => (None, i)
      case Error => (None, i)
  }

  /**
   * The loop of `parse_next` over a list's children, from position `j` with
   * the children `acc` read so far: it stops on `)`, fails when a child fails
   * or when the tokens run out, and otherwise steps past each child.
   */
  function Items(toks: seq<Token>, j: nat, q: nat, acc: seq<Data>): (r: (Option<seq<Data>>, nat))
    ensures j <= r.1 && (j <= |toks| ==> r.1 <= |toks|)
    ensures r.0.Some? ==> r.1 < |toks|
    decreases |toks| - j, 1
  {
    if j >= |toks| then (None, j)
    else if toks[j] == CloseBracket then (Some(acc), j)
    else
      var (child, k) := Parse(toks, j, q);
      if child.None? then (None, k)
      else Items(toks, k + 1, q, acc + [child.value])
  }

  /**
   * What a read produces: nothing at or past the end, on `)` or on an error
   * token; otherwise it stops on a leaf or a `)`, and the value carries at
   * least the current level and, when quoted, holds no `Variable` or `List`.
   */
  lemma {:induction false} ParseShape(toks: seq<Token>, i: nat, q: nat)
    ensures i >= |toks| ==> Parse(toks, i, q) == (None, i)
    ensures i < |toks| && (toks[i].CloseBracket? || toks[i].Error?) ==> Parse(toks, i, q) == (None, i)
    ensures var r := Parse(toks, i, q);
      r.0.Some? ==> EndsForm(toks[r.1]) && r.0.value.quoteLevel >= q && (q > 0 ==> Quoted(r.0.value))
    decreases |toks| - i, 0
  {
    if i < |toks| {
      match toks[i]
      case Quote => ParseShape(toks, i + 1, q + 1);
      case OpenBracket =>
        ItemsShape(toks, i + 1, q, []);
        var children := Items(toks, i + 1, q, []).0;
        if children.Some? && q > 0 {
          ListValueQuoted(children.value, q);
        }
      case _ =>
    }
  }

  /**
   * The loop over a list's children: a success stops on `)`, keeps the
   * children read before, and keeps them all quoted when they were.
   */
  lemma {:induction false} ItemsShape(toks: seq<Token>, j: nat, q: nat, acc: seq<Data>)
    ensures var r := Items(toks, j, q, acc);
      r.0.Some? ==> toks[r.1] == CloseBracket && |acc| <= |r.0.value| && r.0.value[..|acc|] == acc
    ensures var r := Items(toks, j, q, acc);
      r.0.Some? && q > 0 && AllQuoted(acc) ==> AllQuoted(r.0.value)
    decreases |toks| - j, 1
  {
    if j < |toks| && toks[j] != CloseBracket {
      var (child, k) := Parse(toks, j, q);
      if child.Some? {
        var acc' := acc + [child.value];
        ParseShape(toks, j, q);
        ItemsShape(toks, k + 1, q, acc');
        var r := Items(toks, k + 1, q, acc');
        if r.0.Some? {
          assert r.0.value[..|acc|] == r.0.value[..|acc'|][..|acc|];
        }
      }
    }
  }

  // ---------------------------------------------------------------------
  // Forms: what well-bracketed token sequences stand for
  // ---------------------------------------------------------------------

  /** A well-bracketed form, as the tokens spell it. */
  datatype Form =
    | IntAtom(text: string)
    | RealAtom(text: string)
    | IdentAtom(text: string)
    | StringAtom(text: string)
    | Quoted(body: Form)
    | Group(items: seq<Form>)

  /** The tokens that spell a form. */
  function Flatten(f: Form): (t: seq<Token>)
    ensures |t| >= 1 && t[0] != CloseBracket
    decreases f
  {
    match f
    case IntAtom(s) => [Int(s)]
    case RealAtom(s) => [Token.Real(s)]
    case IdentAtom(s) => [Identifier(s)]
    case StringAtom(s) => [String(s)]
    case Quoted(b) => [Quote] + Flatten(b)
    case Group(fs) => [OpenBracket] + FlattenAll(fs) + [CloseBracket]
  }

  function FlattenAll(fs: seq<Form>): seq<Token>
    decreases fs, 0
  {
    if fs == [] then [] else Flatten(fs[0]) + FlattenAll(fs[1..])
  }

  /**
   * The value a form stands for at quote level `q`: atoms carry their text
   * and the level, an identifier is a variable only when unquoted, a quote
   * raises the level of what follows, and a group is a list of its members'
   * values.
   */
  function Meaning(f: Form, q: nat): Data
    decreases f
  {
    match f
    case IntAtom(s) => Data([], s, Integer, q)
    case RealAtom(s) => Data([], s, DataType.Real, q)
    case IdentAtom(s) => Data([], s, if q == 0 then Variable else Symbol, q)
    case StringAtom(s) => Data([], s, Symbol, q)
    case Quoted(b) => Meaning(b, q + 1)
    case Group(fs) => ListValue(MeaningAll(fs, q), q)
  }

  function MeaningAll(fs: seq<Form>, q: nat): (ds: seq<Data>)
    ensures |ds| == |fs|
    decreases fs, 0
  {
    if fs == [] then [] else [Meaning(fs[0], q)] + MeaningAll(fs[1..], q)
  }

  /** The tokens from position `i` on start with `t`. */
  predicate SpellsAt(toks: seq<Token>, i: nat, t: seq<Token>) {
    i + |t| <= |toks| && forall k :: 0 <= k < |t| ==> toks[i + k] == t[k]
  }

  /** Tokens that spell `a + b` spell `a`, and then `b` right after it. */
  lemma SpellsSplit(toks: seq<Token>, i: nat, a: seq<Token>, b: seq<Token>)
    requires SpellsAt(toks, i, a + b)
    ensures SpellsAt(toks, i, a) && SpellsAt(toks, i + |a|, b)
  {
    forall k | 0 <= k < |a|
      ensures toks[i + k] == a[k]
    {
      assert (a + b)[k] == a[k];
    }
    forall k | 0 <= k < |b|
      ensures toks[i + |a| + k] == b[k]
    {
      assert (a + b)[|a| + k] == b[k];
    }
  }

  /** Past a child that reads as `d` and ends on token `k`, the members' loop goes on at `k + 1`. */
  lemma ItemsAfterChild(toks: seq<Token>, j: nat, q: nat, acc: seq<Data>, d: Data, k: nat)
    requires j < |toks| && toks[j] != CloseBracket && Parse(toks, j, q) == (Some(d), k)
    ensures Items(toks, j, q, acc) == Items(toks, k + 1, q, acc + [d])
  {
  }

  /** Reading the tokens of a form yields its meaning and stops on its last token. */
  lemma {:induction false} ReadForm(toks: seq<Token>, i: nat, f: Form, q: nat)
    requires SpellsAt(toks, i, Flatten(f))
    ensures Parse(toks, i, q) == (Some(Meaning(f, q)), i + |Flatten(f)| - 1)
    decreases f
  {
    var t := Flatten(f);
    assert toks[i + 0] == t[0];
    match f
    case IntAtom(s) => assert t == [Int(s)];
    case RealAtom(s) => assert t == [Token.Real(s)];
    case IdentAtom(s) => assert t == [Identifier(s)];
    case StringAtom(s) => assert t == [String(s)];
    case Quoted(b) =>
      assert t == [Quote] + Flatten(b);
      SpellsSplit(toks, i, [Quote], Flatten(b));
      ReadForm(toks, i + 1, b, q + 1);
      assert Parse(toks, i, q) == Parse(toks, i + 1, q + 1);
    case Group(fs) =>
      var inner := FlattenAll(fs);
      assert t == [OpenBracket] + inner + [CloseBracket];
      SpellsSplit(toks, i, [OpenBracket] + inner, [CloseBracket]);
      SpellsSplit(toks, i, [OpenBracket], inner);
      assert toks[i + 1 + |inner| + 0] == [CloseBracket][0];
      ReadList(toks, i, fs, q);
  }

  /** The tokens of a group read as the list value of its members' meanings. */
  lemma {:induction false} ReadList(toks: seq<Token>, i: nat, fs: seq<Form>, q: nat)
    requires i < |toks| && toks[i] == OpenBracket && SpellsAt(toks, i + 1, FlattenAll(fs))
    requires i + 1 + |FlattenAll(fs)| < |toks| && toks[i + 1 + |FlattenAll(fs)|] == CloseBracket
    ensures Parse(toks, i, q) == (Some(ListValue(MeaningAll(fs, q), q)), i + 1 + |FlattenAll(fs)|)
    decreases fs, 1
  {
    ReadGroup(toks, i + 1, fs, q, []);
    assert [] + MeaningAll(fs, q) == MeaningAll(fs, q);
  }

  /** Reading the members of a group, followed by `)`, yields their meanings and stops on the `)`. */
  lemma {:induction false} ReadGroup(toks: seq<Token>, j: nat, fs: seq<Form>, q: nat, acc: seq<Data>)
    requires SpellsAt(toks, j, FlattenAll(fs))
    requires j + |FlattenAll(fs)| < |toks| && toks[j + |FlattenAll(fs)|] == CloseBracket
    ensures Items(toks, j, q, acc) == (Some(acc + MeaningAll(fs, q)), j + |FlattenAll(fs)|)
    decreases fs, 0
  {
    if fs != [] {
      var first := Flatten(fs[0]);
      assert FlattenAll(fs) == first + FlattenAll(fs[1..]);
      SpellsSplit(toks, j, first, FlattenAll(fs[1..]));
      assert toks[j + 0] == first[0];
      ReadForm(toks, j, fs[0], q);
      ItemsAfterChild(toks, j, q, acc, Meaning(fs[0], q), j + |first| - 1);
      ReadGroup(toks, j + |first|, fs[1..], q, acc + [Meaning(fs[0], q)]);
      assert acc + MeaningAll(fs, q) == acc + [Meaning(fs[0], q)] + MeaningAll(fs[1..], q);
    } else {
      assert acc + MeaningAll(fs, q) == acc;
    }
  }

  /** Members that run to the end of the tokens without a `)` make the list fail. */
  lemma {:induction false} UnclosedItems(toks: seq<Token>, j: nat, fs: seq<Form>, q: nat, acc: seq<Data>)
    requires SpellsAt(toks, j, FlattenAll(fs)) && j + |FlattenAll(fs)| == |toks|
    ensures Items(toks, j, q, acc).0 == None
    decreases fs
  {
    if fs != [] {
      var first := Flatten(fs[0]);
      assert FlattenAll(fs) == first + FlattenAll(fs[1..]);
      SpellsSplit(toks, j, first, FlattenAll(fs[1..]));
      assert toks[j + 0] == first[0];
      ReadForm(toks, j, fs[0], q);
      ItemsAfterChild(toks, j, q, acc, Meaning(fs[0], q), j + |first| - 1);
      UnclosedItems(toks, j + |first|, fs[1..], q, acc + [Meaning(fs[0], q)]);
    }
  }

  /** A `(` whose members run to the end of the tokens reads as nothing. */
  lemma UnclosedBracket(toks: seq<Token>, i: nat, fs: seq<Form>, q: nat)
    requires i < |toks| && toks[i] == OpenBracket && toks[i + 1..] == FlattenAll(fs)
    ensures Parse(toks, i, q).0 == None
  {
    var t := FlattenAll(fs);
    forall k | 0 <= k < |t|
      ensures toks[i + 1 + k] == t[k]
    {
      assert toks[i + 1..][k] == t[k];
    }
    UnclosedItems(toks, i + 1, fs, q, []);
  }

  /** Tokens that spell `a` and then `b` right after it spell `a + b`. */
  lemma SpellsJoin(toks: seq<Token>, i: nat, a: seq<Token>, b: seq<Token>)
    requires SpellsAt(toks, i, a) && SpellsAt(toks, i + |a|, b)
    ensures SpellsAt(toks, i, a + b)
  {
    forall k | 0 <= k < |a + b|
      ensures toks[i + k] == (a + b)[k]
    {
      if k >= |a| {
        assert toks[i + |a| + (k - |a|)] == b[k - |a|];
      }
    }
  }

  /**
   * The converse of `ReadForm`: a successful read has read a form.  The
   * tokens from the read position spell some form `f`, the value is its
   * meaning, and the reader stops on the form's last token.
   */
  lemma {:induction false} ParsedForm(toks: seq<Token>, i: nat, q: nat) returns (f: Form)
    requires Parse(toks, i, q).0.Some?
    ensures SpellsAt(toks, i, Flatten(f))
    ensures Parse(toks, i, q) == (Some(Meaning(f, q)), i + |Flatten(f)| - 1)
    decreases |toks| - i, 1
  {
    if toks[i] == OpenBracket {
      f := ParsedGroup(toks, i, q);
    } else if toks[i] == Quote {
      assert Parse(toks, i, q) == Parse(toks, i + 1, q + 1);
      var b := ParsedForm(toks, i + 1, q + 1);
      f := Form.Quoted(b);
      assert Flatten(f) == [Quote] + Flatten(b);
      SpellsJoin(toks, i, [Quote], Flatten(b));
    } else {
      f := ParsedAtom(toks, i, q);
    }
  }

  /** A successful read of a single token has read an atom. */
  lemma ParsedAtom(toks: seq<Token>, i: nat, q: nat) returns (f: Form)
    requires Parse(toks, i, q).0.Some? && toks[i] != OpenBracket && toks[i] != Quote
    ensures SpellsAt(toks, i, Flatten(f))
    ensures Parse(toks, i, q) == (Some(Meaning(f, q)), i + |Flatten(f)| - 1)
  {
    match toks[i]
    case Int(s) => f := IntAtom(s);
    case Real(s) => f := RealAtom(s);
    case Identifier(s) => f := IdentAtom(s);
    case String(s) => f := StringAtom(s);
  }

  /** A successful read at `(` has read a group. */
  lemma {:induction false} ParsedGroup(toks: seq<Token>, i: nat, q: nat) returns (f: Form)
    requires Parse(toks, i, q).0.Some? && toks[i] == OpenBracket
    ensures SpellsAt(toks, i, Flatten(f))
    ensures Parse(toks, i, q) == (Some(Meaning(f, q)), i + |Flatten(f)| - 1)
    decreases |toks| - i, 0
  {
    var fs := ItemsForms(toks, i + 1, q, []);
    f := Group(fs);
    var inner := FlattenAll(fs);
    ItemsShape(toks, i + 1, q, []);
    assert [] + MeaningAll(fs, q) == MeaningAll(fs, q);
    assert Flatten(f) == [OpenBracket] + inner + [CloseBracket];
    SpellsJoin(toks, i, [OpenBracket], inner);
    SpellsJoin(toks, i, [OpenBracket] + inner, [CloseBracket]);
  }

  /**
   * The converse of `ReadGroup`: a successful members' loop has read a run of
   * forms, whose meanings it appends to `acc`, and stops right after them.
   */
  lemma {:induction false} ItemsForms(toks: seq<Token>, j: nat, q: nat, acc: seq<Data>) returns (fs: seq<Form>)
    requires Items(toks, j, q, acc).0.Some?
    ensures SpellsAt(toks, j, FlattenAll(fs))
    ensures Items(toks, j, q, acc) == (Some(acc + MeaningAll(fs, q)), j + |FlattenAll(fs)|)
    decreases |toks| - j, 2
  {
    if toks[j] == CloseBracket {
      fs := [];
      assert acc + MeaningAll(fs, q) == acc;
    } else {
      var (child, k) := Parse(toks, j, q);
      var f := ParsedForm(toks, j, q);
      var rest := ItemsForms(toks, k + 1, q, acc + [child.value]);
      assert Items(toks, j, q, acc) == Items(toks, k + 1, q, acc + [child.value]);
      fs := [f] + rest;
      assert fs[0] == f && fs[1..] == rest;
      assert FlattenAll(fs) == Flatten(f) + FlattenAll(rest);
      SpellsJoin(toks, j, Flatten(f), FlattenAll(rest));
      assert acc + MeaningAll(fs, q) == acc + [child.value] + MeaningAll(rest, q);
    }
  }

  /** A read succeeds exactly when the tokens from the read position spell a form. */
  lemma ReadSucceedsIffForm(toks: seq<Token>, i: nat, q: nat)
    ensures Parse(toks, i, q).0.Some? <==> exists f :: SpellsAt(toks, i, Flatten(f))
  {
    if Parse(toks, i, q).0.Some? {
      var f := ParsedForm(toks, i, q);
    }
    forall f | SpellsAt(toks, i, Flatten(f))
      ensures Parse(toks, i, q).0.Some?
    {
      ReadForm(toks, i, f, q);
    }
  }

  /** The tokens of a form hold no error token, and as many `(` as `)`. */
  lemma {:induction false} FlattenBalanced(f: Form)
    ensures Error !in Flatten(f)
    ensures multiset(Flatten(f))[OpenBracket] == multiset(Flatten(f))[CloseBracket]
    decreases f
  {
    match f
    case Quoted(b) =>
      FlattenBalanced(b);
      assert Flatten(f) == [Quote] + Flatten(b);
    case Group(fs) =>
      FlattenAllBalanced(fs);
      assert Flatten(f) == [OpenBracket] + FlattenAll(fs) + [CloseBracket];
    case _ =>
  }

  lemma {:induction false} FlattenAllBalanced(fs: seq<Form>)
    ensures Error !in FlattenAll(fs)
    ensures multiset(FlattenAll(fs))[OpenBracket] == multiset(FlattenAll(fs))[CloseBracket]
    decreases fs, 0
  {
    if fs != [] {
      FlattenBalanced(fs[0]);
      FlattenAllBalanced(fs[1..]);
      assert FlattenAll(fs) == Flatten(fs[0]) + FlattenAll(fs[1..]);
    }
  }

  /** The stretch of tokens a successful read consumes. */
  lemma ReadSpan(toks: seq<Token>, i: nat, q: nat) returns (f: Form)
    requires Parse(toks, i, q).0.Some?
    ensures toks[i..Parse(toks, i, q).1 + 1] == Flatten(f)
  {
    f := ParsedForm(toks, i, q);
    var t := Flatten(f);
    assert forall k :: 0 <= k < |t| ==> toks[i..i + |t|][k] == t[k];
  }

  /** A read that meets an error token anywhere before its end, at any depth, fails. */
  lemma NoErrorInRead(toks: seq<Token>, i: nat, q: nat)
    ensures var r := Parse(toks, i, q);
      r.0.Some? ==> forall p :: i <= p <= r.1 ==> toks[p] != Error
  {
    var r := Parse(toks, i, q);
    if r.0.Some? {
      var f := ReadSpan(toks, i, q);
      FlattenBalanced(f);
      forall p | i <= p <= r.1
        ensures toks[p] != Error
      {
        assert toks[p] == toks[i..r.1 + 1][p - i];
      }
    }
  }

  /** A successful read consumes as many `(` as `)`. */
  lemma ReadBalanced(toks: seq<Token>, i: nat, q: nat)
    ensures var r := Parse(toks, i, q);
      r.0.Some? ==> multiset(toks[i..r.1 + 1])[OpenBracket] == multiset(toks[i..r.1 + 1])[CloseBracket]
  {
    if Parse(toks, i, q).0.Some? {
      var f := ReadSpan(toks, i, q);
      FlattenBalanced(f);
    }
  }

  /**
   * A `(` that is never closed, at any depth: when no stretch of tokens from
   * the read position holds as many `)` as `(`, the read fails (`( ( a`,
   * `( a ( b )`).
   */
  lemma UnbalancedRead(toks: seq<Token>, i: nat, q: nat)
    requires forall k :: i < k <= |toks| ==> multiset(toks[i..k])[OpenBracket] != multiset(toks[i..k])[CloseBracket]
    ensures Parse(toks, i, q).0 == None
  {
    ReadBalanced(toks, i, q);
  }

  /** The tokens of a form, read from the start, give its meaning and leave the reader on their last token. */
  lemma ReadWholeForm(f: Form, q: nat)
    ensures Parse(Flatten(f), 0, q) == (Some(Meaning(f, q)), |Flatten(f)| - 1)
  {
    ReadForm(Flatten(f), 0, f, q);
  }

  // ---------------------------------------------------------------------
  // The stateful reader
  // ---------------------------------------------------------------------

  /** `Parser`: the token array of the last `load` and the reader's position in it. */
  class Parser {
    var tokens: seq<Token>
    var index: nat

    /** `Parser::new`: no tokens, position 0. */
    constructor ()
      ensures tokens == [] && index == 0
    {
      tokens := [];
      index := 0;
    }

    /** `load`: the lexer's tokens replace the old ones and the position goes back to 0. */
    method Load(input: seq<Token>)
      modifies this
      ensures tokens == input && index == 0
    {
      tokens := [];
      index := 0;
      var k := 0;
      while k < |input|
        invariant 0 <= k <= |input| && tokens == input[..k] && index == 0
      {
        tokens := tokens + [input[k]];
        k := k + 1;
      }
    }

    /** `parse_next`: reads one form at quote level `q`, leaving `index` where `Parse` says. */
    method ParseNext(q: nat) returns (r: Option<Data>)
      modifies this
      ensures tokens == old(tokens)
      ensures (r, index) == Parse(tokens, old(index), q)
      decreases |tokens| - index, 1
    {
      if index >= |tokens| {
        return None;
      }
      var start := index;
      match tokens[index]
      case Int(s) =>
        r := Some(FromStringQuoted(Integer, s, q));
      case Real(s) =>
        r := Some(FromStringQuoted(DataType.Real, s, q));
      case Identifier(s) =>
        r := Some(FromStringQuoted(if q == 0 then Variable else Symbol, s, q));
      case Quote =>
        assert Parse(tokens, start, q) == Parse(tokens, start + 1, q + 1);
        index := index + 1;
        r := ParseNext(q + 1);
      case String(s) =>
        r := Some(FromStringQuoted(Symbol, s, q));
      case OpenBracket =>
        index := index + 1;
        r := ParseList(q, start);
      case CloseBracket =>
        r := None;
      case Error =>
        r := None;
    }

    /** The list branch of `parse_next`, entered just past the `(` at `start`. */
    method ParseList(q: nat, ghost start: nat) returns (r: Option<Data>)
      requires start < |tokens| && tokens[start] == OpenBracket && index == start + 1
      modifies this
      ensures tokens == old(tokens)
      ensures (r, index) == Parse(tokens, start, q)
      decreases |tokens| - start, 0
    {
      var node := NewList();
      if q > 0 {
        node := node.(kind := Symbol, quoteLevel := q);
      }
      while index < |tokens|
        invariant tokens == old(tokens)
        invariant start < index <= |tokens|
        invariant node == (if q > 0 then Data(node.list, "", Symbol, q) else Data(node.list, "", List, 0))
        invariant Items(tokens, index, q, node.list) == Items(tokens, start + 1, q, [])
        decreases |tokens| - index
      {
        if tokens[index] == CloseBracket {
          break;
        }
        ghost var at := index;
        var child := ParseNext(q);
        if child.None? {
          return None;
        }
        ItemsAfterChild(tokens, at, q, node.list, child.value, index);
        node := node.(list := node.list + [child.value]);
        index := index + 1;
      }
      ghost var children := node.list;
      if index == |tokens| {
        return None;
      }
      assert Items(tokens, start + 1, q, []) == (Some(children), index);
      assert Parse(tokens, start, q) == (Some(ListValue(children, q)), index);
      if q == 1 && |node.list| == 0 {
        return Some(NullSym());
      }
      if node.kind == Symbol && |node.list| > 0 {
        node := node.(list := node.list + [NullSym()]);
      }
      r := Some(node);
    }

    /** `Iterator::next`: one form at level 0, after which the position always moves on by one. */
    method Next() returns (r: Option<Data>)
      modifies this
      ensures tokens == old(tokens)
      ensures r == Parse(tokens, old(index), 0).0 && index == Parse(tokens, old(index), 0).1 + 1
    {
      r := ParseNext(0);
      index := index + 1;
    }
  }
}
