/**
 The reverse-domain-name (RDN) identifier of an application, such as
 `com.example.app`, and its validating constructor.

 A name is valid when all five rules hold:
   1. it is between 1 and 255 bytes long (UTF-8 bytes, as `String::len`);
   2. it contains at least one `.`;
   3. splitting it on `.` yields no empty segment;
   4. no segment starts with a numeric character;
   5. every character is alphanumeric, `_` or `.`.
 The rules are stated below twice: declaratively, over character positions
 (`IsValidName`), and operationally, in the order the constructor checks
 them (`New`). `New` is proved to accept exactly the valid names.
 */
module ReverseDomain {
  import opened Wrappers
  import opened Text
  import opened Segments

  const Separator: char := '.'
  const MaxNameBytes: nat := 255

  /** The only failure `New` reports, whichever rule is broken. */
  datatype ApplicationErrors = InvalidName

  predicate IsSeparator(c: char) {
    c == Separator
  }

  /** The characters a name may contain. */
  predicate IsNameChar(c: char) {
    IsAlphanumeric(c) || c == '_' || c == Separator
  }

  predicate IsForbidden(c: char) {
    !IsNameChar(c)
  }

  // ---------------------------------------------------------------------------
  // The rules, over character positions

  /** Position `i` of `s` is where a segment begins: the start, or just after a separator. */
  ghost predicate SegmentStart(s: string, i: int) {
    0 <= i <= |s| && (i == 0 || s[i - 1] == Separator)
  }

  /** Rule 1. */
  ghost predicate LengthInBounds(s: string) {
    0 < ByteLen(s) <= MaxNameBytes
  }

  /** Rule 2. */
  ghost predicate HasSeparator(s: string) {
    Separator in s
  }

  /** Rule 3: every segment begins with a character that is not a separator. */
  ghost predicate NoEmptySegment(s: string) {
    forall i :: SegmentStart(s, i) ==> i < |s| && s[i] != Separator
  }

  /** Rule 4: no segment begins with a numeric character. */
  ghost predicate NoNumericLead(s: string) {
    forall i :: SegmentStart(s, i) && i < |s| ==> !IsNumeric(s[i])
  }

  /** Rule 5. */
  ghost predicate OnlyNameChars(s: string) {
    forall i :: 0 <= i < |s| ==> IsNameChar(s[i])
  }

  ghost predicate IsValidName(s: string) {
    && LengthInBounds(s)
    && HasSeparator(s)
    && NoEmptySegment(s)
    && NoNumericLead(s)
    && OnlyNameChars(s)
  }

  // ---------------------------------------------------------------------------
  // The identifier and its constructor

  datatype ApplicationRdn = ApplicationRdn(name: string) {
    /** The name the identifier was built from. */
    function Name(): string {
      name
    }
  }

  /** Identifiers whose name obeys the rules: the only ones `New` can produce. */
  type Rdn = r: ApplicationRdn | IsValidName(r.name) witness ApplicationRdn("a.b")

  /**
   The loop over the segments of a split: it stops at the first segment that
   is empty or starts with a numeric character. The emptiness test comes
   first, so the first character is only taken of a non-empty segment.
   */
  function SegmentsAcceptable(segments: seq<string>): (ok: bool)
    ensures ok <==> forall k :: 0 <= k < |segments| ==> segments[k] != [] && !IsNumeric(segments[k][0])
  {
    if segments == [] then true
    else if segments[0] == [] then false
    else if IsNumeric(segments[0][0]) then false
    else
      assert forall k :: 0 <= k < |segments| - 1 ==> segments[1..][k] == segments[k + 1];
      SegmentsAcceptable(segments[1..])
  }

  /** Validates `name`, checking the five rules in order, and keeps it unchanged on success. */
  function New(name: string): (r: Result<Rdn, ApplicationErrors>)
    ensures r.Ok? <==> IsValidName(name)
    ensures r.Ok? ==> r.value.Name() == name
  {
    SegmentsMatchRules(name);
    if ByteLen(name) > MaxNameBytes || |name| == 0 then Err(InvalidName)
    else if Count(name, IsSeparator) == 0 then Err(InvalidName)
    else if !SegmentsAcceptable(Split(name, Separator)) then Err(InvalidName)
    else if Count(name, IsForbidden) > 0 then Err(InvalidName)
    else Ok(ApplicationRdn(name))
  }

  // ---------------------------------------------------------------------------
  // Segments against character positions

  /** Rules 3 and 4 together: every segment begins with a character that is neither a separator nor numeric. */
  ghost predicate WellHeaded(s: string) {
    NoEmptySegment(s) && NoNumericLead(s)
  }

  /**
   The segment loop of `New` succeeds exactly when rules 3 and 4 hold. By
   induction on the split: peel off the segment before the first separator.
   */
  lemma {:induction false} SegmentsMatchRules(s: string)
    ensures SegmentsAcceptable(Split(s, Separator)) <==> WellHeaded(s)
    decreases |s|
  {
    if Separator !in s {
      assert Split(s, Separator) == [s];
      WellHeadedWithoutSeparator(s);
    } else {
      var k := IndexOf(s, Separator);
      var tail := s[k + 1..];
      SegmentsMatchRules(tail);
      var segments := Split(s, Separator);
      assert segments[0] == s[..k];
      assert segments[1..] == Split(tail, Separator);
      WellHeadedAtFirstSeparator(s, k);
    }
  }

  /** Without a separator the whole string is the one segment. */
  lemma WellHeadedWithoutSeparator(s: string)
    requires Separator !in s
    ensures WellHeaded(s) <==> s != [] && !IsNumeric(s[0])
  {
    forall i | 0 < i <= |s|
      ensures !SegmentStart(s, i)
    {
      assert s[i - 1] in s;
    }
    assert SegmentStart(s, 0);
    if |s| > 0 {
      assert s[0] in s;
    }
  }

  /**
   At the first separator, position `k`, the string is well headed exactly
   when its first segment is non-empty and not numeric-led and the rest of
   the string after the separator is well headed.
   */
  lemma WellHeadedAtFirstSeparator(s: string, k: nat)
    requires k < |s| && s[k] == Separator && Separator !in s[..k]
    ensures WellHeaded(s) <==> k > 0 && !IsNumeric(s[0]) && WellHeaded(s[k + 1..])
  {
    var tail := s[k + 1..];
    forall i | 0 < i <= k
      ensures !SegmentStart(s, i)
    {
      assert s[i - 1] == s[..k][i - 1];
    }
    forall j | 0 <= j <= |tail|
      ensures SegmentStart(tail, j) <==> SegmentStart(s, j + k + 1)
    {
      if j > 0 {
        assert tail[j - 1] == s[j + k];
      }
    }
    assert SegmentStart(s, 0);
    if WellHeaded(s) {
      forall j | SegmentStart(tail, j)
        ensures j < |tail| && tail[j] != Separator && !IsNumeric(tail[j])
      {
        assert SegmentStart(s, j + k + 1);
      }
    }
    if k > 0 && !IsNumeric(s[0]) && WellHeaded(tail) {
      forall i | SegmentStart(s, i)
        ensures i < |s| && s[i] != Separator && !IsNumeric(s[i])
      {
        if i > 0 {
          var j := i - k - 1;
          assert SegmentStart(tail, j);
          assert s[i] == tail[j];
        }
      }
    }
  }

  // ---------------------------------------------------------------------------
  // Properties of the constructor

  /** An accepted name is returned by `Name` exactly as given, and validating it again gives the same identifier. */
  lemma NameRoundTrip(s: string)
    requires New(s).Ok?
    ensures New(s).value.Name() == s
    ensures New(New(s).value.Name()) == New(s)
  {
  }

  /** Rule 1: the empty name and names over 255 bytes are rejected. */
  lemma RejectsLengthOutOfBounds(s: string)
    requires |s| == 0 || ByteLen(s) > MaxNameBytes
    ensures New(s) == Err(InvalidName)
  {
  }

  /** Rule 2: a name without a separator is rejected. */
  lemma RejectsMissingSeparator(s: string)
    requires Separator !in s
    ensures New(s) == Err(InvalidName)
  {
  }

  /** Rule 3: a name whose split has an empty segment is rejected. */
  lemma RejectsEmptySegment(s: string, k: nat)
    requires k < |Split(s, Separator)| && Split(s, Separator)[k] == []
    ensures New(s) == Err(InvalidName)
  {
  }

  /** Rule 3 at the start: a leading separator leaves the first segment empty. */
  lemma RejectsLeadingSeparator(s: string)
    requires |s| > 0 && s[0] == Separator
    ensures New(s) == Err(InvalidName)
  {
    assert SegmentStart(s, 0);
  }

  /** Rule 3 at the end: a trailing separator leaves the last segment empty. */
  lemma RejectsTrailingSeparator(s: string)
    requires |s| > 0 && s[|s| - 1] == Separator
    ensures New(s) == Err(InvalidName)
  {
    assert SegmentStart(s, |s|);
  }

  /** Rule 3 in the middle: two adjacent separators enclose an empty segment. */
  lemma RejectsDoubledSeparator(s: string, i: nat)
    requires i + 1 < |s| && s[i] == Separator && s[i + 1] == Separator
    ensures New(s) == Err(InvalidName)
  {
    assert SegmentStart(s, i + 1);
  }

  /** Rule 4: a name with a segment that starts with a numeric character is rejected. */
  lemma RejectsNumericLead(s: string, k: nat)
    requires k < |Split(s, Separator)| && Split(s, Separator)[k] != []
    requires IsNumeric(Split(s, Separator)[k][0])
    ensures New(s) == Err(InvalidName)
  {
  }

  /** Rule 5: a name with a character other than alphanumerics, `_` and `.` is rejected. */
  lemma RejectsForbiddenChar(s: string, i: nat)
    requires i < |s| && IsForbidden(s[i])
    ensures New(s) == Err(InvalidName)
  {
  }

  /** A segment of a valid name: non-empty, not numeric-led, alphanumerics and `_` only. */
  ghost predicate GoodSegment(segment: string) {
    && segment != []
    && !IsNumeric(segment[0])
    && forall c :: c in segment ==> IsAlphanumeric(c) || c == '_'
  }

  /**
   A valid name is all ASCII, so its length in bytes and in characters agree,
   and it splits into at least two good segments.
   */
  lemma ValidNameSegments(s: string)
    requires IsValidName(s)
    ensures ByteLen(s) == |s| <= MaxNameBytes
    ensures |Split(s, Separator)| >= 2
    ensures forall k :: 0 <= k < |Split(s, Separator)| ==> GoodSegment(Split(s, Separator)[k])
  {
    var segments := Split(s, Separator);
    SegmentsMatchRules(s);
    SplitHasManyPieces(s, Separator);
    JoinSplit(s, Separator);
    forall k, c | 0 <= k < |segments| && c in segments[k]
      ensures IsAlphanumeric(c) || c == '_'
    {
      JoinContains(segments, Separator, k, c);
    }
  }

  /**
   Conversely, joining at least two good segments with `.` gives a valid name,
   provided the result fits in 255 characters.
   */
  lemma JoinOfGoodSegmentsIsValid(segments: seq<string>)
    requires |segments| >= 2
    requires forall k :: 0 <= k < |segments| ==> GoodSegment(segments[k])
    requires |Join(segments, Separator)| <= MaxNameBytes
    ensures IsValidName(Join(segments, Separator))
    ensures New(Join(segments, Separator)).Ok?
  {
    var s := Join(segments, Separator);
    assert !IsAlphanumeric(Separator) && Separator != '_';
    assert forall k :: 0 <= k < |segments| ==> Separator !in segments[k];
    SplitJoin(segments, Separator);
    assert SegmentsAcceptable(Split(s, Separator));
    SegmentsMatchRules(s);
    SplitHasManyPieces(s, Separator);
    JoinOfGoodSegmentsChars(segments);
    assert LengthInBounds(s);
  }

  /** The join of good segments has only name characters, all of them ASCII. */
  lemma JoinOfGoodSegmentsChars(segments: seq<string>)
    requires |segments| >= 1
    requires forall k :: 0 <= k < |segments| ==> GoodSegment(segments[k])
    ensures OnlyNameChars(Join(segments, Separator))
    ensures ByteLen(Join(segments, Separator)) == |Join(segments, Separator)|
  {
    var s := Join(segments, Separator);
    forall i | 0 <= i < |s|
      ensures IsNameChar(s[i]) && IsAscii(s[i])
    {
      JoinElements(segments, Separator, s[i]);
    }
  }

  // ---------------------------------------------------------------------------
  // Concrete names

  // The accepted name comes in through `requires`: with the literal inside
  // `New(..)` in the ensures, the verifier unfolds `New` on it and runs out of resource.
  lemma AcceptsExample(s: string)
    requires s == "com.example.app"
    ensures New(s).Ok? && New(s).value.Name() == s
  {
    var segments := ["com", "example", "app"];
    assert Join(segments, Separator) == s;
    assert GoodSegment(segments[0]) && GoodSegment(segments[1]) && GoodSegment(segments[2]);
    JoinOfGoodSegmentsIsValid(segments);
  }

  /**
   `_` may lead a segment, and digits may follow a segment's first character.
   The name comes in through `requires`, as in `AcceptsExample`.
   */
  lemma AcceptsUnderscoresAndInnerDigits(s: string)
    requires s == "_a.b_1.c2"
    ensures New(s).Ok?
  {
    var segments := ["_a", "b_1", "c2"];
    assert Join(segments, Separator) == s;
    assert GoodSegment(segments[0]) && GoodSegment(segments[1]) && GoodSegment(segments[2]);
    JoinOfGoodSegmentsIsValid(segments);
  }

  lemma RejectsNameWithoutSeparator()
    ensures New("app") == Err(InvalidName)
  {
    RejectsMissingSeparator("app");
  }

  lemma RejectsNameWithEmptySegment()
    ensures New("com..app") == Err(InvalidName)
  {
    RejectsDoubledSeparator("com..app", 3);
  }

  lemma RejectsNameWithNumericLead()
    ensures New("com.1app") == Err(InvalidName)
  {
    var s := "com.1app";
    assert SegmentStart(s, 4) && IsNumeric(s[4]);
  }

  lemma RejectsNameWithHyphen()
    ensures New("com.ex-ample") == Err(InvalidName)
  {
    RejectsForbiddenChar("com.ex-ample", 6);
  }

  /** A valid name of exactly 255 bytes is accepted; one byte more is rejected. */
  lemma LengthBoundary()
    ensures New("a." + seq(253, _ => 'b')).Ok?
    ensures New("a." + seq(254, _ => 'b')) == Err(InvalidName)
  {
    var s := "a." + seq(253, _ => 'b');
    assert forall i :: 2 <= i < |s| ==> s[i] == 'b';
    assert IsValidName(s) by {
      assert s[1] == Separator;
      forall i | SegmentStart(s, i)
        ensures i < |s| && s[i] != Separator && !IsNumeric(s[i])
      {
        assert i == 0 || i == 2;
      }
    }
    var t := "a." + seq(254, _ => 'b');
    assert forall i :: 2 <= i < |t| ==> t[i] == 'b';
    assert ByteLen(t) == |t| == 256;
  }
}
