/**
  The options of the ORB on the command line (`ConfORB::get_parameters`): pairs of an option and its
  value are taken out of `argv` while it is scanned.
 */
module Argv {

  /** Which words are options of the ORB, and which values they accept. */
  datatype Syntax = Syntax(known: set<string>, accepts: (string, string) -> bool)

  /** The words that are left, the settings that were made, in order, and whether no exception was thrown. */
  datatype Outcome = Outcome(ok: bool, words: seq<string>, settings: seq<(string, string)>)

  predicate Foreign(syn: Syntax, w: string) {
    w !in syn.known && !("-ORB" <= w)
  }

  /** What the scan makes of the words after the program name; the last word is never looked at. */
  function Strip(syn: Syntax, ws: seq<string>): (r: Outcome) {
    if |ws| < 2 then Outcome(true, ws, [])
    else if ws[0] in syn.known then
      if syn.accepts(ws[0], ws[1]) then
        var rest := Strip(syn, ws[2..]);
        Outcome(rest.ok, rest.words, [(ws[0], ws[1])] + rest.settings)
      else Outcome(false, ws, [])
    else if "-ORB" <= ws[0] then Outcome(false, ws, [])
    else
      var rest := Strip(syn, ws[1..]);
      Outcome(rest.ok, [ws[0]] + rest.words, rest.settings)
  }

  // ---------- what stripping means ----------

  /** A command line in pieces: words to keep, and pairs of an option and its value. */
  datatype Piece = Word(w: string) | Pair(option: string, value: string)

  function Words(ps: seq<Piece>): (r: seq<string>) {
    if ps == [] then [] else
    (match ps[0] case Word(w) => [w] case Pair(o, v) => [o, v]) + Words(ps[1..])
  }

  function Kept(ps: seq<Piece>): (r: seq<string>) {
    if ps == [] then [] else (if ps[0].Word? then [ps[0].w] else []) + Kept(ps[1..])
  }

  function Pairs(ps: seq<Piece>): (r: seq<(string, string)>) {
    if ps == [] then [] else (if ps[0].Pair? then [(ps[0].option, ps[0].value)] else []) + Pairs(ps[1..])
  }

  /** Every pair is a known option with a value that it accepts; every word but the last is foreign to the ORB. */
  predicate Legal(syn: Syntax, ps: seq<Piece>) {
    forall i :: 0 <= i < |ps| ==>
      match ps[i]
      case Pair(o, v) => o in syn.known && syn.accepts(o, v)
      case Word(w) => i == |ps| - 1 || Foreign(syn, w)
  }

  /** Whatever legal pieces a command line is made of, stripping keeps its words and takes its pairs. */
  lemma {:induction false} StripTakesThePairs(syn: Syntax, ps: seq<Piece>)
    requires Legal(syn, ps)
    ensures Strip(syn, Words(ps)) == Outcome(true, Kept(ps), Pairs(ps))
  {
    if ps != [] {
      var rest := ps[1..];
      var ws := Words(ps);
      assert forall i :: 0 <= i < |rest| ==> rest[i] == ps[i + 1];
      StripTakesThePairs(syn, rest);
      if ps[0].Pair? {
        assert ws[2..] == Words(rest);
      } else if |ps| == 1 {
        assert ws == [ps[0].w] && Kept(ps) == [ps[0].w] && Pairs(ps) == [];
      } else {
        assert Foreign(syn, ps[0].w);
        assert ws[1..] == Words(rest) && rest[0] == ps[1] && |ws| >= 2;
      }
    }
  }

  /** A command line that is accepted is made of legal pieces. */
  lemma {:induction false} AcceptedHasPieces(syn: Syntax, ws: seq<string>) returns (ps: seq<Piece>)
    requires Strip(syn, ws).ok
    ensures Words(ps) == ws && Legal(syn, ps)
  {
    if ws == [] {
      ps := [];
    } else if |ws| == 1 {
      ps := [Word(ws[0])];
      assert ps[1..] == [];
    } else if ws[0] in syn.known {
      var rest := AcceptedHasPieces(syn, ws[2..]);
      ps := [Pair(ws[0], ws[1])] + rest;
      assert ps[1..] == rest;
      assert forall i :: 0 < i < |ps| ==> ps[i] == rest[i - 1];
    } else {
      var rest := AcceptedHasPieces(syn, ws[1..]);
      ps := [Word(ws[0])] + rest;
      assert ps[1..] == rest;
      assert forall i :: 0 < i < |ps| ==> ps[i] == rest[i - 1];
    }
  }

  lemma {:induction false} EveryPairTakesTwo(syn: Syntax, ws: seq<string>)
    ensures var r := Strip(syn, ws); |r.words| + 2 * |r.settings| == |ws|
  {
    if |ws| >= 2 && ws[0] in syn.known {
      if syn.accepts(ws[0], ws[1]) {
        EveryPairTakesTwo(syn, ws[2..]);
      }
    } else if |ws| >= 2 && !("-ORB" <= ws[0]) {
      EveryPairTakesTwo(syn, ws[1..]);
    }
  }

  /** There is nothing more to take from what is left. */
  lemma {:induction false} StripTwice(syn: Syntax, ws: seq<string>)
    requires Strip(syn, ws).ok
    ensures Strip(syn, Strip(syn, ws).words) == Outcome(true, Strip(syn, ws).words, [])
  {
    if |ws| >= 2 {
      if ws[0] in syn.known {
        StripTwice(syn, ws[2..]);
      } else {
        StripTwice(syn, ws[1..]);
        var rest := Strip(syn, ws[1..]).words;
        assert ([ws[0]] + rest)[1..] == rest;
      }
    }
  }

  // ---------- in place ----------

  /** `modify_parameters`: the words behind are moved over `n` words at `pos`. */
  method ModifyParameters(argv: array<string>, argc: nat, pos: nat, n: nat) returns (argc': nat, next: int)
    requires pos + n <= argc <= argv.Length
    modifies argv
    ensures argc' == argc - n && next == pos - 1
    ensures argv[..argc'] == old(argv[..pos] + argv[pos + n..argc])
    ensures argv[argc..] == old(argv[argc..])
  {
    ghost var b := argv[..];
    for i := pos + n to argc
      invariant argv[..] == Moved(b, pos, n, i)
    {
      MoveOne(b, pos, n, i);
      argv[i - n] := argv[i];
    }
    MovedAll(b, pos, n, argc);
    argc' := argc - n;
    next := pos - 1;
    ghost var after := argv[..];
    assert argv[..argc'] == after[..argc'] && argv[argc..] == after[argc..];
    assert b[..pos] == old(argv[..pos]) && b[pos + n..argc] == old(argv[pos + n..argc]) && b[argc..] == old(argv[argc..]);
  }

  /** The words up to `i` were moved over `n` words at `pos`. */
  ghost function Moved(b: seq<string>, pos: nat, n: nat, i: nat): (r: seq<string>)
    requires pos + n <= i <= |b|
    ensures |r| == |b|
  {
    b[..pos] + b[pos + n..i] + b[i - n..]
  }

  lemma MovedAll(b: seq<string>, pos: nat, n: nat, argc: nat)
    requires pos + n <= argc <= |b|
    ensures Moved(b, pos, n, argc)[..argc - n] == b[..pos] + b[pos + n..argc]
    ensures Moved(b, pos, n, argc)[argc..] == b[argc..]
  {
  }

  lemma MoveOne(b: seq<string>, pos: nat, n: nat, i: nat)
    requires pos + n <= i < |b|
    ensures Moved(b, pos, n, i + 1) == Moved(b, pos, n, i)[i - n := Moved(b, pos, n, i)[i]]
  {
    var m := Moved(b, pos, n, i);
    assert m[i] == b[i];
    assert b[pos + n..i + 1] == b[pos + n..i] + [b[i]];
    assert b[i - n..] == [b[i - n]] + b[i + 1 - n..];
  }

  /** What the scan of `words` has left to do when it stands at `i` in `v`. */
  ghost predicate Scanned(syn: Syntax, words: seq<string>, v: seq<string>, i: nat, made: seq<(string, string)>)
    requires 1 <= i <= |v|
  {
    var r := Strip(syn, v[i..]);
    Strip(syn, words) == Outcome(r.ok, v[1..i] + r.words, made + r.settings)
  }

  lemma KeepWord(syn: Syntax, words: seq<string>, v: seq<string>, i: nat, made: seq<(string, string)>)
    requires 1 <= i < |v| - 1 && Scanned(syn, words, v, i, made) && Foreign(syn, v[i])
    ensures Scanned(syn, words, v, i + 1, made)
  {
    assert v[i..][1..] == v[i + 1..];
    assert v[1..i + 1] == v[1..i] + [v[i]];
    assert v[1..i] + ([v[i]] + Strip(syn, v[i + 1..]).words) == v[1..i + 1] + Strip(syn, v[i + 1..]).words;
  }

  lemma TakePair(syn: Syntax, words: seq<string>, v: seq<string>, i: nat, made: seq<(string, string)>)
    requires 1 <= i < |v| - 1 && Scanned(syn, words, v, i, made) && v[i] in syn.known && syn.accepts(v[i], v[i + 1])
    ensures Scanned(syn, words, v[..i] + v[i + 2..], i, made + [(v[i], v[i + 1])])
  {
    var v' := v[..i] + v[i + 2..];
    assert v[i..][2..] == v[i + 2..] == v'[i..];
    assert v'[1..i] == v[1..i];
    var r := Strip(syn, v[i + 2..]);
    assert made + ([(v[i], v[i + 1])] + r.settings) == made + [(v[i], v[i + 1])] + r.settings;
  }

  lemma NothingLeft(syn: Syntax, words: seq<string>, v: seq<string>, i: nat, made: seq<(string, string)>, ok: bool)
    requires 1 <= i <= |v| && Scanned(syn, words, v, i, made) && Strip(syn, v[i..]) == Outcome(ok, v[i..], [])
    ensures Strip(syn, words) == Outcome(ok, v[1..], made)
  {
    assert v[1..i] + v[i..] == v[1..];
  }

  /** The scanning loop. */
  method GetParameters(syn: Syntax, argv: array<string>, argc: nat)
    returns (argc': nat, ok: bool, settings: seq<(string, string)>)
    requires argc <= argv.Length
    modifies argv
    ensures argc' <= argc && (argc >= 1 ==> argc' >= 1 && argv[0] == old(argv[0]))
    ensures argc >= 1 ==> Strip(syn, old(argv[1..argc])) == Outcome(ok, argv[1..argc'], settings)
    ensures argc' + 2 * |settings| == argc
    ensures argv[argc..] == old(argv[argc..])
  {
    argc', ok, settings := argc, true, [];
    if argc == 0 {
      return;
    }
    ghost var words := argv[1..argc];
    EveryPairTakesTwo(syn, words);
    var i := 1;
    assert argv[..argc'][1..] == words;
    while i < argc' - 1
      invariant 1 <= i <= argc' <= argc && argv[0] == old(argv[0]) && argv[argc..] == old(argv[argc..])
      invariant Scanned(syn, words, argv[..argc'], i, settings)
      decreases argc' - i
    {
      ghost var v := argv[..argc'];
      if argv[i] in syn.known {
        if !syn.accepts(argv[i], argv[i + 1]) {
          ok := false;
          break;
        }
        argc', i, settings := RemovePair(syn, argv, argc', argc, i, words, settings);
      } else if "-ORB" <= argv[i] {
        ok := false;
        break;
      } else {
        KeepWord(syn, words, v, i, settings);
      }
      i := i + 1;
    }
    NothingLeft(syn, words, argv[..argc'], i, settings, ok);
    assert argv[..argc'][1..] == argv[1..argc'];
  }

  /** An accepted pair: it is noted and taken out. */
  method RemovePair(syn: Syntax, argv: array<string>, argc: nat, ghost argc0: nat, pos: nat,
                    ghost words: seq<string>, made: seq<(string, string)>)
    returns (argc': nat, next: int, made': seq<(string, string)>)
    requires 1 <= pos && pos + 2 <= argc <= argc0 <= argv.Length && Scanned(syn, words, argv[..argc], pos, made)
    requires argv[pos] in syn.known && syn.accepts(argv[pos], argv[pos + 1])
    modifies argv
    ensures argc' == argc - 2 && next == pos - 1 && argv[0] == old(argv[0])
    ensures Scanned(syn, words, argv[..argc'], pos, made')
    ensures argv[argc0..] == old(argv[argc0..])
  {
    made' := made + [(argv[pos], argv[pos + 1])];
    TakePair(syn, words, argv[..argc], pos, made);
    ghost var tail := argv[argc..];
    ghost var b := argv[..argc];
    argc', next := ModifyParameters(argv, argc, pos, 2);
    assert argv[..argc'] == b[..pos] + b[pos + 2..];
    assert argv[argc0..] == argv[argc..][argc0 - argc..] == tail[argc0 - argc..];
    assert argv[0] == argv[..argc'][0];
  }
}
