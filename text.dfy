/**
 * The string handling `compose` applies to its `recipients` field:
 * Python's `str.split(",")` followed by `str.strip()` on every piece.
 */
module Text {

  /** The characters Python's `str.isspace` accepts, which `str.strip()` removes. */
  predicate IsSpace(c: char) {
    ('\U{0009}' <= c <= '\U{000D}') || ('\U{001C}' <= c <= '\U{0020}')
    || c == '\U{0085}' || c == '\U{00A0}' || c == '\U{1680}'
    || ('\U{2000}' <= c <= '\U{200A}') || c == '\U{2028}' || c == '\U{2029}'
    || c == '\U{202F}' || c == '\U{205F}' || c == '\U{3000}'
  }

  predicate Blank(s: string) {
    forall i :: 0 <= i < |s| ==> IsSpace(s[i])
  }

  /** `s.split(",")`: never empty, and no piece holds a comma. */
  function Split(s: string): (pieces: seq<string>)
    ensures |pieces| >= 1
    ensures forall i :: 0 <= i < |pieces| ==> ',' !in pieces[i]
  {
    if s == [] then [[]]
    else
      var rest := Split(s[1..]);
      if s[0] == ',' then [[]] + rest
      else [[s[0]] + rest[0]] + rest[1..]
  }

  /** `",".join(pieces)`, the inverse of Split. */
  function Join(pieces: seq<string>): string
  {
    if |pieces| == 0 then []
    else if |pieces| == 1 then pieces[0]
    else pieces[0] + [','] + Join(pieces[1..])
  }

  lemma {:induction false} JoinSplit(s: string)
    ensures Join(Split(s)) == s
  {
    if s != [] {
      var rest := Split(s[1..]);
      JoinSplit(s[1..]);
      if s[0] == ',' {
        assert Split(s) == [[]] + rest;
        assert s == [] + [','] + Join(rest);
      } else {
        if |rest| == 1 {
          assert Split(s) == [[s[0]] + rest[0]];
        } else {
          assert Split(s)[1..] == rest[1..];
          assert Join(rest) == rest[0] + [','] + Join(rest[1..]);
          assert s == [s[0]] + Join(rest);
        }
      }
    }
  }

  /** Splitting a comma-free prefix glued to `rest` extends the first piece of `rest`. */
  lemma {:induction false} SplitPrefix(a: string, rest: string)
    requires ',' !in a
    ensures Split(a + rest) == [a + Split(rest)[0]] + Split(rest)[1..]
  {
    if a != [] {
      assert (a + rest)[1..] == a[1..] + rest;
      SplitPrefix(a[1..], rest);
      assert [a[0]] + (a[1..] + Split(rest)[0]) == a + Split(rest)[0];
    } else {
      assert a + rest == rest;
      assert a + Split(rest)[0] == Split(rest)[0];
      assert Split(rest) == [Split(rest)[0]] + Split(rest)[1..];
    }
  }

  lemma {:induction false} SplitJoin(pieces: seq<string>)
    requires |pieces| >= 1
    requires forall i :: 0 <= i < |pieces| ==> ',' !in pieces[i]
    ensures Split(Join(pieces)) == pieces
  {
    if |pieces| == 1 {
      SplitPrefix(pieces[0], []);
      assert pieces[0] + [] == pieces[0];
    } else {
      var tail := Join(pieces[1..]);
      SplitJoin(pieces[1..]);
      assert ([','] + tail)[1..] == tail;
      assert Split([','] + tail) == [[]] + pieces[1..];
      assert Join(pieces) == pieces[0] + ([','] + tail);
      SplitPrefix(pieces[0], [','] + tail);
      assert pieces[0] + [] == pieces[0];
    }
  }

  /** A string splits into more than one piece exactly when it holds a comma. */
  lemma {:induction false} SplitSingle(s: string)
    ensures Split(s) == [s] <==> ',' !in s
  {
    if ',' !in s {
      SplitPrefix(s, []);
      assert s + [] == s;
    } else {
      SplitHasTwo(s);
    }
  }

  lemma {:induction false} SplitHasTwo(s: string)
    requires ',' in s
    ensures |Split(s)| >= 2
  {
    if s[0] != ',' {
      SplitHasTwo(s[1..]);
    }
  }

  /** How many whitespace characters `s` starts with. */
  function LeadingSpace(s: string): (n: nat)
    ensures n <= |s|
    ensures forall i :: 0 <= i < n ==> IsSpace(s[i])
    ensures n < |s| ==> !IsSpace(s[n])
  {
    if s == [] || !IsSpace(s[0]) then 0 else 1 + LeadingSpace(s[1..])
  }

  /** How many whitespace characters `s` ends with. */
  function TrailingSpace(s: string): (n: nat)
    ensures n <= |s|
    ensures forall i :: |s| - n <= i < |s| ==> IsSpace(s[i])
    ensures n < |s| ==> !IsSpace(s[|s| - 1 - n])
  {
    if s == [] || !IsSpace(s[|s| - 1]) then 0 else 1 + TrailingSpace(s[..|s| - 1])
  }

  /**
   * `s.strip()`: the slice of `s` left after removing whitespace at both
   * ends; it is empty exactly when `s` is all whitespace.
   */
  function Strip(s: string): (r: string)
    ensures r == [] <==> Blank(s)
    ensures |r| > 0 ==> !IsSpace(r[0]) && !IsSpace(r[|r| - 1])
  {
    var i := LeadingSpace(s);
    if i == |s| then []
    else
      var n := TrailingSpace(s);
      assert i < |s| - n;
      s[i..|s| - n]
  }

  /** What Strip removes is whitespace at the two ends of `s`, and nothing else. */
  lemma StripIsSlice(s: string) returns (i: nat)
    ensures i + |Strip(s)| <= |s| && Strip(s) == s[i..i + |Strip(s)|]
    ensures Blank(s[..i]) && Blank(s[i + |Strip(s)|..])
  {
    i := LeadingSpace(s);
    if i < |s| {
      var n := TrailingSpace(s);
      assert |s| - n < |s| ==> !IsSpace(s[|s| - 1 - n]);
      var tail := s[|s| - n..];
      assert Blank(tail) by {
        forall k | 0 <= k < |tail| ensures IsSpace(tail[k]) {
          assert tail[k] == s[|s| - n + k];
        }
      }
    }
  }

  lemma StripIdempotent(s: string)
    ensures Strip(Strip(s)) == Strip(s)
  {
    var r := Strip(s);
    if r != [] {
      assert LeadingSpace(r) == 0;
      assert TrailingSpace(r) == 0;
      assert r[0..|r|] == r;
    }
  }

  /** The comprehension `[email.strip() for email in s.split(",")]`. */
  function Tokens(s: string): seq<string> {
    var pieces := Split(s);
    seq(|pieces|, i requires 0 <= i < |pieces| => Strip(pieces[i]))
  }

  /** One token per piece, each free of commas and already stripped. */
  lemma TokensAreTrimmed(s: string)
    ensures |Tokens(s)| == |Split(s)|
    ensures forall i :: 0 <= i < |Tokens(s)| ==> ',' !in Tokens(s)[i] && Strip(Tokens(s)[i]) == Tokens(s)[i]
  {
    var pieces := Split(s);
    forall i | 0 <= i < |Tokens(s)| ensures ',' !in Tokens(s)[i] && Strip(Tokens(s)[i]) == Tokens(s)[i] {
      var piece := pieces[i];
      var token := Strip(piece);
      assert Tokens(s)[i] == token;
      StripIdempotent(piece);
      var j := StripIsSlice(piece);
      assert ',' !in token by {
        forall k | 0 <= k < |token| ensures token[k] != ',' {
          assert token[k] == piece[j + k];
        }
      }
    }
  }

  /**
   * The token list is exactly `[""]` precisely when the string is all
   * whitespace (a comma always yields at least two tokens).
   */
  lemma SingleEmptyTokenIffBlank(s: string)
    ensures Tokens(s) == [""] <==> Blank(s)
  {
    SplitSingle(s);
    assert !IsSpace(',');
    if Tokens(s) == [""] {
      if ',' in s {
        SplitHasTwo(s);
        assert false;
      }
      assert Split(s) == [s];
      assert Strip(s) == Tokens(s)[0];
    }
    if Blank(s) {
      assert Split(s) == [s];
      assert Tokens(s)[0] == Strip(s) == "";
    }
  }

  /** A comma followed by a space after a comma-free text splits off a one-space piece. */
  lemma SplitTrailingComma(address: string)
    requires ',' !in address
    ensures Split(address + ", ") == [address, " "]
  {
    var pieces := [address, " "];
    assert address + ", " == Join(pieces) by {
      assert Join(pieces[1..]) == " ";
    }
    assert ',' !in pieces[1];
    SplitJoin(pieces);
  }

  /**
   * A trailing comma (here followed by a space, as in `"a@x, "`) yields a
   * last token that strips to the empty string.
   */
  lemma TrailingCommaTokens(address: string)
    requires ',' !in address && Strip(address) == address
    ensures Tokens(address + ", ") == [address, ""]
    ensures !Blank(address + ", ")
  {
    assert (address + ", ")[|address|] == ',';
    SplitTrailingComma(address);
    assert Blank(" ");
  }
}
