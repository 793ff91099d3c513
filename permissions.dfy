/** `permission_convert` (main.c:6-31): the `PROT_*` tokens of an `MPROTECT`
    command line folded into a mask.  `strtok` splitting on space, `|` and
    newline is modelled by `Tokens`, the loop over the tokens by `Fold`. */
module PermissionParser {
  import opened Regions

  /** The separators passed to `strtok`. */
  predicate IsDelim(c: char)
  {
    c == ' ' || c == '|' || c == '\n'
  }

  /** A token as `strtok` hands it out: not empty, no separator in it. */
  predicate Clean(t: string)
  {
    t != [] && forall i :: 0 <= i < |t| ==> !IsDelim(t[i])
  }

  /** `s` read from left to right: the tokens already closed by a separator
      and the token still open at the end (empty if none). */
  function Scan(s: string): (seq<string>, string)
  {
    if s == [] then ([], [])
    else
      var (done, cur) := Scan(s[..|s| - 1]);
      var c := s[|s| - 1];
      if IsDelim(c) then (if cur == [] then done else done + [cur], [])
      else (done, cur + [c])
  }

  /** The tokens `strtok` returns one after the other for `s`. */
  function Tokens(s: string): seq<string>
  {
    var (done, cur) := Scan(s);
    if cur == [] then done else done + [cur]
  }

  /** The three booleans of the loop. */
  datatype Flags = Flags(r: bool, w: bool, x: bool)

  const NoFlags: Flags := Flags(false, false, false)

  /** One pass of the loop body: `PROT_NONE` clears every flag, the other
      three names set their own; anything else is ignored. */
  function Step(f: Flags, tok: string): Flags
  {
    var g := if tok == "PROT_NONE" then NoFlags else f;
    Flags(g.r || tok == "PROT_READ", g.w || tok == "PROT_WRITE", g.x || tok == "PROT_EXEC")
  }

  /** The flags after the loop has seen `toks`. */
  function Fold(toks: seq<string>): Flags
  {
    if toks == [] then NoFlags else Step(Fold(toks[..|toks| - 1]), toks[|toks| - 1])
  }

  /** The mask built after the loop: execute 1, write 2, read 4. */
  function Mask(f: Flags): byte
  {
    (if f.x then 1 else 0) + (if f.w then 2 else 0) + (if f.r then 4 else 0)
  }

  /** What `permission_convert` returns for `s`. */
  function Convert(s: string): byte
  {
    Mask(Fold(Tokens(s)))
  }

  /** The name `name` occurs among `toks` with no `PROT_NONE` after it. */
  predicate Effective(toks: seq<string>, name: string)
  {
    exists i :: 0 <= i < |toks| && toks[i] == name
      && forall j :: i < j < |toks| ==> toks[j] != "PROT_NONE"
  }

  /** Each flag is set exactly when its name occurs after the last
      `PROT_NONE`, whatever the order of the tokens around it. */
  lemma {:induction false} FoldFlags(toks: seq<string>)
    ensures Fold(toks).r <==> Effective(toks, "PROT_READ")
    ensures Fold(toks).w <==> Effective(toks, "PROT_WRITE")
    ensures Fold(toks).x <==> Effective(toks, "PROT_EXEC")
    decreases |toks|
  {
    if toks != [] {
      var n := |toks| - 1;
      var init, t := toks[..n], toks[n];
      FoldFlags(init);
      EffectiveSnoc(init, t, "PROT_READ");
      EffectiveSnoc(init, t, "PROT_WRITE");
      EffectiveSnoc(init, t, "PROT_EXEC");
      assert toks == init + [t];
    }
  }

  /** `name` is effective in `init + [t]` when `t` is `name`, or when `t` is
      not `PROT_NONE` and `name` was effective in `init`. */
  lemma EffectiveSnoc(init: seq<string>, t: string, name: string)
    requires name != "PROT_NONE"
    ensures Effective(init + [t], name)
      <==> t == name || (t != "PROT_NONE" && Effective(init, name))
  {
    var toks := init + [t];
    if t == name {
      assert toks[|init|] == name;
    } else if t != "PROT_NONE" && Effective(init, name) {
      var i :| 0 <= i < |init| && init[i] == name
        && forall j :: i < j < |init| ==> init[j] != "PROT_NONE";
      assert toks[i] == name;
      assert forall j :: i < j < |toks| ==> toks[j] != "PROT_NONE";
    }
    if Effective(toks, name) {
      var i :| 0 <= i < |toks| && toks[i] == name
        && forall j :: i < j < |toks| ==> toks[j] != "PROT_NONE";
      if i < |init| {
        assert toks[|init|] == t;
        assert init[i] == name;
        assert forall j :: i < j < |init| ==> init[j] == toks[j];
      }
    }
  }

  /** The mask `permission_convert` returns holds read (4), write (2) and
      execute (1) for the names that occur after the last `PROT_NONE`, and
      nothing else: it never exceeds 7. */
  lemma ConvertBits(s: string)
    ensures Convert(s) <= 7
    ensures Convert(s) as int
      == (if Effective(Tokens(s), "PROT_EXEC") then 1 else 0)
       + (if Effective(Tokens(s), "PROT_WRITE") then 2 else 0)
       + (if Effective(Tokens(s), "PROT_READ") then 4 else 0)
  {
    FoldFlags(Tokens(s));
  }

  /** A line with none of the four names gives mask 0. */
  lemma UnrecognisedIsZero(s: string)
    requires forall i :: 0 <= i < |Tokens(s)| ==>
      Tokens(s)[i] !in {"PROT_NONE", "PROT_READ", "PROT_WRITE", "PROT_EXEC"}
    ensures Convert(s) == 0
  {
    FoldFlags(Tokens(s));
  }

  /** `PROT_NONE` as the last token clears everything before it. */
  lemma NoneLastIsZero(toks: seq<string>)
    requires toks != [] && toks[|toks| - 1] == "PROT_NONE"
    ensures Mask(Fold(toks)) == 0
  {
  }

  /** Every token `strtok` returns is clean. */
  lemma {:induction false} ScanClean(s: string)
    ensures forall i :: 0 <= i < |Scan(s).0| ==> Clean(Scan(s).0[i])
    ensures forall i :: 0 <= i < |Scan(s).1| ==> !IsDelim(Scan(s).1[i])
    decreases |s|
  {
    if s != [] {
      ScanClean(s[..|s| - 1]);
    }
  }

  lemma TokensClean(s: string)
    ensures forall i :: 0 <= i < |Tokens(s)| ==> Clean(Tokens(s)[i])
  {
    ScanClean(s);
  }

  /** The tokens written one after the other with ` | ` between them, as an
      `MPROTECT` line spells them. */
  function Join(ts: seq<string>): string
  {
    if ts == [] then []
    else if |ts| == 1 then ts[0]
    else Join(ts[..|ts| - 1]) + " | " + ts[|ts| - 1]
  }

  /** Characters without a separator extend the open token. */
  lemma {:induction false} ScanWord(p: string, t: string)
    requires forall i :: 0 <= i < |t| ==> !IsDelim(t[i])
    ensures Scan(p + t) == (Scan(p).0, Scan(p).1 + t)
    decreases |t|
  {
    if t == [] {
      assert p + t == p;
      assert Scan(p).1 + t == Scan(p).1;
    } else {
      var u := t[..|t| - 1];
      ScanWord(p, u);
      assert (p + t)[..|p + t| - 1] == p + u;
      assert Scan(p).1 + u + [t[|t| - 1]] == Scan(p).1 + t;
    }
  }

  /** A separator closes the open token. */
  lemma ScanDelim(p: string, c: char)
    requires IsDelim(c)
    ensures Scan(p + [c]) == (Tokens(p), [])
  {
    assert (p + [c])[..|p|] == p;
  }

  /** The separator ` | ` closes the open token and leaves none open. */
  lemma ScanSep(q: string)
    ensures Scan(q + " | ") == (Tokens(q), [])
  {
    ScanDelim(q, ' ');
    assert Tokens(q + [' ']) == Tokens(q);
    ScanDelim(q + [' '], '|');
    assert q + [' '] + ['|'] == q + [' ', '|'];
    assert Tokens(q + [' ', '|']) == Tokens(q);
    ScanDelim(q + [' ', '|'], ' ');
    assert q + [' ', '|'] + [' '] == q + " | ";
  }

  lemma ScanJoinOne(p: string, ts: seq<string>)
    requires Scan(p).1 == [] && |ts| == 1 && Clean(ts[0])
    ensures Scan(p + Join(ts)) == (Scan(p).0 + ts[..0], ts[0])
  {
    ScanWord(p, ts[0]);
    assert ts[..0] == [] && Join(ts) == ts[0];
    assert Scan(p).0 + [] == Scan(p).0 && Scan(p).1 + ts[0] == ts[0];
  }

  /** After an open token, ` | ` and a clean word: the open token is closed
      and the word is open. */
  lemma ScanSepWord(q: string, closed: seq<string>, open: string, w: string)
    requires Scan(q) == (closed, open) && open != []
    requires Clean(w)
    ensures Scan(q + " | " + w) == (closed + [open], w)
  {
    var q' := q + " | ";
    assert Scan(q') == (closed + [open], []) by {
      ScanSep(q);
    }
    ScanWord(q', w);
    assert Scan(q').1 + w == w;
  }

  /** Writing `ts` after a prefix that leaves no token open: all but the last
      token are closed and the last one is open. */
  lemma {:induction false} ScanJoin(p: string, ts: seq<string>)
    requires Scan(p).1 == [] && ts != []
    requires forall i :: 0 <= i < |ts| ==> Clean(ts[i])
    ensures Scan(p + Join(ts)) == (Scan(p).0 + ts[..|ts| - 1], ts[|ts| - 1])
    decreases |ts|
  {
    if |ts| == 1 {
      ScanJoinOne(p, ts);
    } else {
      var init, last := ts[..|ts| - 1], ts[|ts| - 1];
      ScanJoin(p, init);
      var q := p + Join(init);
      ScanSepWord(q, Scan(p).0 + init[..|init| - 1], init[|init| - 1], last);
      assert Scan(p).0 + init[..|init| - 1] + [init[|init| - 1]] == Scan(p).0 + ts[..|ts| - 1] by {
        SnocLast(init);
      }
      assert p + Join(ts) == q + " | " + last by {
        assert Join(ts) == Join(init) + " | " + last;
      }
    }
  }

  lemma SnocLast(ts: seq<string>)
    requires ts != []
    ensures ts[..|ts| - 1] + [ts[|ts| - 1]] == ts
  {
  }

  /** A token still open at the end is the last one `strtok` returns. */
  lemma TokensOpen(s: string, closed: seq<string>, open: string)
    requires Scan(s) == (closed, open) && open != []
    ensures Tokens(s) == closed + [open]
  {
  }

  /** The names after a leading space, joined by ` | `, split back into the
      names. */
  lemma TokensAfterSpace(ts: seq<string>)
    requires forall i :: 0 <= i < |ts| ==> Clean(ts[i])
    ensures Tokens(" " + Join(ts)) == ts
  {
    var sp := " ";
    assert Scan(sp) == ([], []) by {
      assert sp[..0] == [];
    }
    if ts == [] {
      assert sp + Join(ts) == sp;
    } else {
      var q := sp + Join(ts);
      var n := |ts| - 1;
      ScanJoin(sp, ts);
      assert Scan(q) == (ts[..n], ts[n]) by {
        assert [] + ts[..n] == ts[..n];
      }
      TokensOpen(q, ts[..n], ts[n]);
      SnocLast(ts);
    }
  }

  /** Splitting an `MPROTECT` argument line, a space, the names joined by
      ` | `, a newline, gives back the names. */
  lemma TokensOfLine(ts: seq<string>)
    requires forall i :: 0 <= i < |ts| ==> Clean(ts[i])
    ensures Tokens(" " + Join(ts) + "\n") == ts
  {
    var q := " " + Join(ts);
    ScanDelim(q, '\n');
    TokensAfterSpace(ts);
  }

  /** `permission_convert`: the `strtok` loop, one character at a time, with
      the end of the line closing the last token, then the mask built from
      the three flags. */
  method PermissionConvert(s: string) returns (conv: byte)
    ensures conv == Convert(s)
    ensures conv <= 7
  {
    var r, w, x := false, false, false;
    var cur: string := [];
    var i := 0;
    while i <= |s|
      invariant 0 <= i <= |s| + 1
      invariant i <= |s| ==> cur == Scan(s[..i]).1 && Flags(r, w, x) == Fold(Scan(s[..i]).0)
      invariant i == |s| + 1 ==> Flags(r, w, x) == Fold(Tokens(s))
    {
      ghost var before := Flags(r, w, x);
      if i == |s| || IsDelim(s[i]) {
        if cur != [] {
          if cur == "PROT_NONE" {
            r, w, x := false, false, false;
          }
          if cur == "PROT_READ" {
            r := true;
          }
          if cur == "PROT_WRITE" {
            w := true;
          }
          if cur == "PROT_EXEC" {
            x := true;
          }
          assert Flags(r, w, x) == Step(before, cur);
        }
        if i == |s| {
          assert s[..i] == s;
        } else {
          assert s[..i + 1][..i] == s[..i];
        }
        cur := [];
      } else {
        assert s[..i + 1][..i] == s[..i];
        cur := cur + [s[i]];
      }
      i := i + 1;
    }
    ConvertBits(s);
    conv := 0;
    if x {
      conv := conv + 1;
    }
    if w {
      conv := conv + 2;
    }
    if r {
      conv := conv + 4;
    }
  }
}
