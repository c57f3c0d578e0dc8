/** Username rules of staff registration: the one Librarian name, the ten
    Assistant names, and the rename given to a soft-deleted account whose
    username is reused. */
module StaffNames {

  /** The only username a Librarian may have; also the one username that may
      log in during maintenance. */
  const LibrarianName: string := "lib0.0"
  /** Non-deleted Assistants allowed at once. */
  const MaxAssistants: nat := 10

  function DigitChar(d: nat): (c: char)
    requires d < 10
    ensures '0' <= c <= '9'
  {
    ('0' as int + d) as char
  }

  /** Decimal representation of a non-negative integer, as a JavaScript
      template literal prints it. */
  function Decimal(n: nat): (s: string)
    ensures 1 <= |s|
    ensures forall i :: 0 <= i < |s| ==> '0' <= s[i] <= '9'
  {
    if n < 10 then [DigitChar(n)] else Decimal(n / 10) + [DigitChar(n % 10)]
  }

  /** The test of the pattern /^as([1-9]|10)$/: "as" followed by a digit 1-9
      or by "10", and nothing else. */
  predicate IsAssistantName(s: string)
  {
    |s| >= 3 && s[0] == 'a' && s[1] == 's' &&
    ((|s| == 3 && '1' <= s[2] <= '9') || s[2..] == "10")
  }

  /** The pattern admits exactly the ten names as1, as2, ..., as10. */
  lemma AssistantNamesAreNumbered(s: string)
    ensures IsAssistantName(s) <==> exists k :: 1 <= k <= MaxAssistants && s == "as" + Decimal(k)
  {
    if IsAssistantName(s) {
      if |s| == 3 {
        var k := s[2] as int - '0' as int;
        assert Decimal(k) == [s[2]];
        assert s == "as" + Decimal(k);
      } else {
        assert Decimal(10) == "10" by {
          assert Decimal(1) == "1";
        }
        assert s == "as" + s[2..];
      }
    }
    forall k | 1 <= k <= MaxAssistants && s == "as" + Decimal(k)
      ensures IsAssistantName(s)
    {
      if k == 10 {
        assert Decimal(1) == "1";
        assert s[2..] == Decimal(10);
      } else {
        assert s[2..] == Decimal(k);
      }
    }
  }

  /** `${name}_deleted_${now}`: the username a soft-deleted account is given
      when its name is taken again. It keeps the old name as a prefix, so it
      never equals the old name, and it is never a staff name. */
  function RetiredName(username: string, now: nat): (r: string)
    ensures |r| > |username| && r[..|username|] == username
    ensures r != LibrarianName && !IsAssistantName(r)
  {
    var r := username + "_deleted_" + Decimal(now);
    assert r[|username|] == '_';
    r
  }
}
