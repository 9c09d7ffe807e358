/**
 * The address check the command line applies to a user-supplied `-m` value:
 * `re.match(r"^([0-9A-Fa-f]{2}:){5}[0-9A-Fa-f]{2}$", mac)`.
 */
module MacFormat {
  import opened Text

  /** `([0-9A-Fa-f]{2}:){n}[0-9A-Fa-f]{2}` matching the whole of `s`. */
  predicate Groups(s: string, n: nat)
    decreases n
  {
    if n == 0 then |s| == 2 && IsHexDigit(s[0]) && IsHexDigit(s[1])
    else |s| >= 3 && IsHexDigit(s[0]) && IsHexDigit(s[1]) && s[2] == ':' && Groups(s[3..], n - 1)
  }

  /**
   * The check as written. Python's `$` (without MULTILINE) matches at the end
   * of the string or just before a final newline, so one trailing "\n" passes.
   */
  predicate ValidMacFormat(s: string)
  {
    Groups(s, 5) || (|s| >= 1 && s[|s| - 1] == '\n' && Groups(s[..|s| - 1], 5))
  }

  /** n+1 hex pairs joined by ':', described position by position. */
  predicate PairsShape(s: string, n: nat)
  {
    && |s| == 3 * n + 2
    && forall i :: 0 <= i < |s| ==> if i % 3 == 2 then s[i] == ':' else IsHexDigit(s[i])
  }

  /** The canonical address shape: 17 characters, ':' at 2, 5, 8, 11 and 14, hex digits elsewhere. */
  predicate MacShape(s: string)
  {
    PairsShape(s, 5)
  }

  /** The grouped regular expression accepts exactly the positional shape. */
  lemma {:induction false} GroupsIff(s: string, n: nat)
    ensures Groups(s, n) <==> PairsShape(s, n)
    decreases n
  {
    if n > 0 && |s| >= 3 {
      GroupsIff(s[3..], n - 1);
      if Groups(s, n) {
        forall i | 0 <= i < |s|
          ensures if i % 3 == 2 then s[i] == ':' else IsHexDigit(s[i])
        {
          if i >= 3 {
            assert s[i] == s[3..][i - 3];
            assert (i - 3) % 3 == i % 3;
          }
        }
      }
      if PairsShape(s, n) {
        assert IsHexDigit(s[0]) && IsHexDigit(s[1]) && s[2] == ':';
        forall j | 0 <= j < |s[3..]|
          ensures if j % 3 == 2 then s[3..][j] == ':' else IsHexDigit(s[3..][j])
        {
          assert s[3..][j] == s[j + 3];
          assert (j + 3) % 3 == j % 3;
        }
      }
    }
  }

  /**
   * The check accepts a canonical 17-character address, or one followed by a
   * single newline, and nothing else.
   */
  lemma ValidMacFormatIff(s: string)
    ensures ValidMacFormat(s) <==> MacShape(s) || (|s| == 18 && MacShape(s[..17]) && s[17] == '\n')
  {
    GroupsIff(s, 5);
    if |s| >= 1 {
      GroupsIff(s[..|s| - 1], 5);
    }
  }

  /** On input without a newline the check is exactly the canonical shape. */
  lemma ValidMacFormatWithoutNewline(s: string)
    requires '\n' !in s
    ensures ValidMacFormat(s) <==> MacShape(s)
  {
    ValidMacFormatIff(s);
    if |s| == 18 {
      assert s[17] in s;
    }
  }

  lemma AcceptsCanonical()
    ensures ValidMacFormat("00:11:22:33:44:55")
  {
    ValidMacFormatIff("00:11:22:33:44:55");
  }

  /** Mixed case is accepted. */
  lemma AcceptsMixedCase()
    ensures ValidMacFormat("AC:de:48:Ff:0a:9B")
  {
    ValidMacFormatIff("AC:de:48:Ff:0a:9B");
  }

  /** Too few or too many groups. */
  lemma RejectsWrongGroupCount()
    ensures !ValidMacFormat("00:11:22:33:44")
    ensures !ValidMacFormat("00:11:22:33:44:55:66")
  {
    ValidMacFormatWithoutNewline("00:11:22:33:44");
    ValidMacFormatWithoutNewline("00:11:22:33:44:55:66");
  }

  /** A separator other than ':', or a character that is not a hex digit. */
  lemma RejectsBadCharacters()
    ensures !ValidMacFormat("00-11-22-33-44-55")
    ensures !ValidMacFormat("gg:11:22:33:44:55")
  {
    ValidMacFormatWithoutNewline("00-11-22-33-44-55");
    assert "00-11-22-33-44-55"[2] == '-';
    ValidMacFormatWithoutNewline("gg:11:22:33:44:55");
    assert !IsHexDigit("gg:11:22:33:44:55"[0]);
  }

  /** The `$` anchor lets one trailing newline through, but not two. */
  lemma AcceptsOneTrailingNewline()
    ensures ValidMacFormat("00:11:22:33:44:55\n")
    ensures !ValidMacFormat("00:11:22:33:44:55\n\n")
  {
    ValidMacFormatIff("00:11:22:33:44:55\n");
    assert "00:11:22:33:44:55\n"[..17] == "00:11:22:33:44:55";
    ValidMacFormatIff("00:11:22:33:44:55\n\n");
  }
}
