/** The sanitiser `get_settings` applies to the version replies: the reply is decoded
    as text and every character outside `[a-zA-Z0-9-._ ]` is removed. */
module Text {
  import opened Common

  /** The characters the version strings keep. */
  predicate Allowed(c: char) {
    ('a' <= c <= 'z') || ('A' <= c <= 'Z') || ('0' <= c <= '9') ||
    c == '-' || c == '.' || c == '_' || c == ' '
  }

  /** The ASCII bytes of a reply as characters, in order. Decoding with errors
      ignored yields these and, for the other bytes, only non-ASCII characters or
      nothing, none of which the filter keeps. */
  function AsciiText(bytes: seq<byte>): (s: string)
    ensures |s| <= |bytes|
    ensures forall k :: 0 <= k < |s| ==> s[k] < 128 as char
    ensures forall c: char :: c < 128 as char ==> multiset(s)[c] == multiset(bytes)[c as int]
  {
    if bytes == [] then []
    else
      assert bytes == [bytes[0]] + bytes[1..];
      (if bytes[0] < 128 then [bytes[0] as char] else []) + AsciiText(bytes[1..])
  }

  /** Decoding works byte by byte: the text of a concatenation is the text of its
      parts, so the characters keep the order of their bytes. */
  lemma {:induction false} AsciiTextAppend(a: seq<byte>, b: seq<byte>)
    ensures AsciiText(a + b) == AsciiText(a) + AsciiText(b)
    decreases |a|
  {
    if a != [] {
      assert (a + b)[1..] == a[1..] + b;
      AsciiTextAppend(a[1..], b);
    } else {
      assert a + b == b;
    }
  }

  /** A reply of ASCII bytes only is decoded character for byte, in order. */
  lemma {:induction false} AsciiTextOfAscii(bytes: seq<byte>)
    requires forall k :: 0 <= k < |bytes| ==> bytes[k] < 128
    ensures |AsciiText(bytes)| == |bytes|
    ensures forall k :: 0 <= k < |bytes| ==> AsciiText(bytes)[k] as int == bytes[k]
    decreases |bytes|
  {
    if bytes != [] {
      AsciiTextOfAscii(bytes[1..]);
      var s := AsciiText(bytes);
      assert s == [bytes[0] as char] + AsciiText(bytes[1..]);
      forall k | 0 <= k < |bytes| ensures s[k] as int == bytes[k] {
        if k > 0 {
          assert s[k] == AsciiText(bytes[1..])[k - 1];
        }
      }
    }
  }

  /** Removes every character that is not allowed, keeping the order of the rest. */
  function Filter(s: string): string {
    if s == [] then []
    else (if Allowed(s[0]) then [s[0]] else []) + Filter(s[1..])
  }

  /** The version string stored for a reply. */
  function Sanitize(bytes: seq<byte>): string {
    Filter(AsciiText(bytes))
  }

  /** `sub` is `s` with some characters removed. */
  predicate IsSubsequence(sub: string, s: string)
    decreases |s|
  {
    if sub == [] then true
    else if s == [] then false
    else if sub[0] == s[0] then IsSubsequence(sub[1..], s[1..])
    else IsSubsequence(sub, s[1..])
  }

  predicate AllAllowed(s: string) {
    forall k :: 0 <= k < |s| ==> Allowed(s[k])
  }

  /** The filter keeps only allowed characters. */
  lemma {:induction false} FilterAllowed(s: string)
    ensures AllAllowed(Filter(s))
    decreases |s|
  {
    if s != [] {
      FilterAllowed(s[1..]);
      var rest := Filter(s[1..]);
      if Allowed(s[0]) {
        assert Filter(s) == [s[0]] + rest;
      }
    }
  }

  /** The filter only removes characters; it never adds or reorders one. */
  lemma {:induction false} FilterSubsequence(s: string)
    ensures IsSubsequence(Filter(s), s)
    decreases |s|
  {
    if s != [] {
      FilterSubsequence(s[1..]);
      FilterAllowed(s[1..]);
      var rest := Filter(s[1..]);
      if Allowed(s[0]) {
        assert Filter(s) == [s[0]] + rest;
        assert Filter(s)[1..] == rest;
      } else {
        assert Filter(s) == rest;
        // the kept head is allowed, so it is not matched against the dropped one
        assert rest != [] ==> rest[0] != s[0];
      }
    }
  }

  /** The filter keeps every occurrence of every allowed character. */
  lemma {:induction false} FilterCounts(s: string)
    ensures forall c :: Allowed(c) ==> multiset(Filter(s))[c] == multiset(s)[c]
    decreases |s|
  {
    if s != [] {
      FilterCounts(s[1..]);
      assert s == [s[0]] + s[1..];
      var rest := Filter(s[1..]);
      if Allowed(s[0]) {
        assert Filter(s) == [s[0]] + rest;
      } else {
        assert Filter(s) == rest;
      }
    }
  }

  /** Filtering leaves a string unchanged exactly when all its characters are allowed;
      so filtering a stored version string again changes nothing. */
  lemma {:induction false} FilterFixes(s: string)
    ensures Filter(s) == s <==> AllAllowed(s)
    decreases |s|
  {
    FilterAllowed(s);
    if s != [] {
      FilterFixes(s[1..]);
      if AllAllowed(s) {
        assert AllAllowed(s[1..]) by {
          forall k | 0 <= k < |s[1..]| ensures Allowed(s[1..][k]) {
            assert s[1..][k] == s[k + 1];
          }
        }
        assert Filter(s) == [s[0]] + s[1..];
      }
    }
  }

  lemma FilterIdempotent(s: string)
    ensures Filter(Filter(s)) == Filter(s)
  {
    FilterAllowed(s);
    FilterFixes(Filter(s));
  }

  /** A stored version string holds only allowed characters, is the decoded reply
      with characters removed, and keeps every allowed character of the reply. */
  lemma SanitizeSound(bytes: seq<byte>)
    ensures AllAllowed(Sanitize(bytes))
    ensures IsSubsequence(Sanitize(bytes), AsciiText(bytes))
    ensures Filter(Sanitize(bytes)) == Sanitize(bytes)
    ensures forall c :: Allowed(c) ==> multiset(Sanitize(bytes))[c] == multiset(AsciiText(bytes))[c]
  {
    FilterAllowed(AsciiText(bytes));
    FilterSubsequence(AsciiText(bytes));
    FilterCounts(AsciiText(bytes));
    FilterIdempotent(AsciiText(bytes));
  }

  /** Every allowed character occurs in the stored version string exactly as often
      as its byte occurs in the reply. */
  lemma SanitizeCounts(bytes: seq<byte>)
    ensures forall c :: Allowed(c) ==> multiset(Sanitize(bytes))[c] == multiset(bytes)[c as int]
  {
    FilterCounts(AsciiText(bytes));
  }
}
