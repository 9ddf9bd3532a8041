/** The decision logic of the welcome bot: which directory student a new
    chat user is, which streams that student is subscribed to automatically,
    and how a stream is mentioned in the welcome message. */
module Welcome {
  import opened Wrappers
  import opened Text
  import Seqs
  import OrderedMap

  /** One student of the department's graduate directory. The email is
      stored lower-cased, as the scraper leaves it. */
  datatype GradStudent = GradStudent(name: string, year: int, email: string, fields: seq<string>)

  const KelloggDomain: string := "@kellogg.northwestern.edu"

  /** The student belongs to the business school: the email ends with its domain. */
  predicate IsKellogg(st: GradStudent) {
    EndsWith(st.email, KelloggDomain)
  }

  const FieldPrefix: string := "field/"
  const CoursePrefix: string := "course/"

  /** The course streams every first-year student joins. */
  const FirstYearCourseStreams: seq<string> :=
    ["course/ECON 410-1", "course/ECON 411-1", "course/ECON 480-1"]

  /** The custom emoji shown next to a stream's mention. */
  const StreamEmojis: seq<(string, string)> := [
    ("course/ECON 410-1", "eddie"),
    ("course/ECON 411-1", "larry"),
    ("course/ECON 480-1", "joel")
  ]

  /** Research-field names as the directory writes them, in declaration
      order, with the slug of the field's stream. */
  const FieldStreams: seq<(string, string)> := [
    ("Applied Microeconomics", "appliedmicro"),
    ("Development", "development"),
    ("Econometrics", "metrics"),
    ("Economic History", "history"),
    ("Environmental", "environmental"),
    ("Finance", "finance"),
    ("Health", "health"),
    ("Industrial Organization", "io"),
    ("Labor", "labor"),
    ("Macroeconomics", "macro"),
    ("Microeconomic Theory", "microtheory"),
    ("Political Economy", "political"),
    ("Economics of Organizations", "organizational"),
    ("Public Economics", "public")
  ]

  /** `stream.startswith(prefix)`, as a filter condition. */
  function HasPrefix(prefix: string): string -> bool {
    (s: string) => prefix <= s
  }

  // ---------------------------------------------------------------------
  // Matching a chat user to a directory student
  // ---------------------------------------------------------------------

  predicate IsAt(c: char) {
    c == '@'
  }

  /** `^([a-zA-Z]+)\d{4}@([a-z\.]+)$` matches `e`, with the letter group
      ending at position `k`. */
  ghost predicate YearSuffixedAt(e: string, k: int) {
    && 0 < k
    && k + 6 <= |e|
    && All(e[..k], IsLetter)
    && All(e[k..k + 4], IsDigit)
    && e[k + 4] == '@'
    && All(e[k + 5..], IsDomainChar)
  }

  /** The address with its four-digit year suffix removed, when the address
      has the shape letters, four digits, `@`, a domain of lower-case
      letters and dots; `None` when it does not. */
  function StripYearSuffix(e: string): (r: Option<string>)
    ensures forall k :: YearSuffixedAt(e, k) ==> r == Some(e[..k] + "@" + e[k + 5..])
    ensures r.Some? ==> exists k :: YearSuffixedAt(e, k)
  {
    match Seqs.FirstIndex(e, IsAt)
    case None => None
    case Some(at) =>
      if 4 < at && at + 2 <= |e|
        && All(e[..at - 4], IsLetter)
        && All(e[at - 4..at], IsDigit)
        && All(e[at + 1..], IsDomainChar)
      then
        assert YearSuffixedAt(e, at - 4);
        Some(e[..at - 4] + "@" + e[at + 1..])
      else
        assert forall k :: YearSuffixedAt(e, k) ==> k + 4 == at by {
          forall k | YearSuffixedAt(e, k)
            ensures k + 4 == at
          {
            SuffixedAtIsFirstAt(e, k);
          }
        }
        None
  }

  /** In a year-suffixed address the `@` after the digits is the first `@`. */
  lemma SuffixedAtIsFirstAt(e: string, k: int)
    requires YearSuffixedAt(e, k)
    ensures Seqs.IsFirst(e, k + 4, IsAt)
  {
    forall j | 0 <= j < k + 4
      ensures !IsAt(e[j])
    {
      if j < k {
        assert e[..k][j] == e[j];
      } else {
        assert e[k..k + 4][j - k] == e[j];
      }
    }
  }

  /** The student has exactly this email. */
  function EmailIs(email: string): GradStudent -> bool {
    (st: GradStudent) => st.email == email
  }

  /** The student's name equals `name` ignoring case. */
  function NameIs(name: string): GradStudent -> bool {
    (st: GradStudent) => Lower(st.name) == Lower(name)
  }

  /** Neither email stage finds the user: no student has the lower-cased
      address, and either the address has no year suffix or no student has
      the address without it. */
  ghost predicate EmailStagesMiss(students: seq<GradStudent>, email: string) {
    && Seqs.NoneMatch(students, EmailIs(Lower(email)))
    && (StripYearSuffix(Lower(email)).Some? ==>
          Seqs.NoneMatch(students, EmailIs(StripYearSuffix(Lower(email)).value)))
  }

  /** The directory student a chat user is: the first student with the
      user's lower-cased email; else, for an address with a year suffix, the
      first student with the address without it; else the first student
      with the user's name ignoring case; else none. */
  function FindGradStudent(students: seq<GradStudent>, name: string, email: string): (r: Option<GradStudent>)
    ensures r.Some? ==> r.value in students
    ensures forall i :: Seqs.IsFirst(students, i, EmailIs(Lower(email))) ==> r == Some(students[i])
    ensures forall alt, i ::
              && Seqs.NoneMatch(students, EmailIs(Lower(email)))
              && StripYearSuffix(Lower(email)) == Some(alt)
              && Seqs.IsFirst(students, i, EmailIs(alt))
              ==> r == Some(students[i])
    ensures forall i :: EmailStagesMiss(students, email) && Seqs.IsFirst(students, i, NameIs(name)) ==> r == Some(students[i])
    ensures r.None? <==> EmailStagesMiss(students, email) && Seqs.NoneMatch(students, NameIs(name))
  {
    var lowered := Lower(email);
    match Seqs.Find(students, EmailIs(lowered))
    case Some(st) => Some(st)
    case None =>
      var bySuffix :=
        match StripYearSuffix(lowered)
        case Some(alt) => Seqs.Find(students, EmailIs(alt))
        case None => None;
      if bySuffix.Some? then bySuffix
      else Seqs.Find(students, NameIs(name))
  }

  // ---------------------------------------------------------------------
  // Research fields to field streams
  // ---------------------------------------------------------------------

  /** The table key is a prefix of `field`. */
  function KeyPrefixOf(field: string): ((string, string)) -> bool {
    (kv: (string, string)) => kv.0 <= field
  }

  /** The stream of a research field: `field/` and the slug of the key equal
      to the field; else of the first key in declaration order that the
      field starts with; else none (the field is dropped). */
  function FieldToStream(table: seq<(string, string)>, field: string): (r: Option<string>)
    ensures r.Some? ==> exists kv :: kv in table && kv.0 <= field && r.value == FieldPrefix + kv.1
    ensures forall i :: Seqs.IsFirst(table, i, OrderedMap.HasKey(field)) ==> r == Some(FieldPrefix + table[i].1)
    ensures forall i ::
              Seqs.NoneMatch(table, OrderedMap.HasKey(field)) && Seqs.IsFirst(table, i, KeyPrefixOf(field))
              ==> r == Some(FieldPrefix + table[i].1)
    ensures r.None? <==> Seqs.NoneMatch(table, KeyPrefixOf(field))
  {
    match OrderedMap.Get(table, field)
    case Some(slug) =>
      assert forall i :: Seqs.IsFirst(table, i, OrderedMap.HasKey(field)) ==> slug == table[i].1 by {
        forall i | Seqs.IsFirst(table, i, OrderedMap.HasKey(field))
          ensures slug == table[i].1
        {
          OrderedMap.GetFirst(table, field, i);
        }
      }
      assert !Seqs.NoneMatch(table, KeyPrefixOf(field)) by {
        var j :| 0 <= j < |table| && table[j] == (field, slug);
        assert KeyPrefixOf(field)(table[j]);
      }
      Some(FieldPrefix + slug)
    case None =>
      assert Seqs.NoneMatch(table, OrderedMap.HasKey(field)) by {
        forall i | 0 <= i < |table|
          ensures !OrderedMap.HasKey(field)(table[i])
        {
          OrderedMap.KeysIndex(table);
        }
      }
      match Seqs.FirstIndex(table, KeyPrefixOf(field))
      case Some(i) =>
        assert table[i] in table;
        Some(FieldPrefix + table[i].1)
      case None => None
  }

  /** `[s for s in map(field_to_stream, fields) if s]`: the fields' streams
      in field order, unmapped fields dropped. */
  function FieldsToStreams(table: seq<(string, string)>, fields: seq<string>): (r: seq<string>)
    ensures |r| <= |fields|
    ensures forall s :: s in r ==> FieldPrefix <= s
    ensures forall s :: s in r <==> exists f :: f in fields && FieldToStream(table, f) == Some(s)
    decreases |fields|
  {
    if |fields| == 0 then []
    else
      var rest := FieldsToStreams(table, fields[1..]);
      assert forall f :: f in fields <==> f == fields[0] || f in fields[1..];
      match FieldToStream(table, fields[0])
      case Some(s) => [s] + rest
      case None => rest
  }

  /** Mapping a list of fields is mapping its parts: the output follows the
      order of the input fields. */
  lemma {:induction false} FieldsToStreamsAppend(table: seq<(string, string)>, a: seq<string>, b: seq<string>)
    ensures FieldsToStreams(table, a + b) == FieldsToStreams(table, a) + FieldsToStreams(table, b)
    decreases |a|
  {
    if |a| == 0 {
      assert a + b == b;
    } else {
      assert (a + b)[0] == a[0];
      assert (a + b)[1..] == a[1..] + b;
      FieldsToStreamsAppend(table, a[1..], b);
    }
  }

  // ---------------------------------------------------------------------
  // Automatic subscriptions
  // ---------------------------------------------------------------------

  /** The streams a new user joins automatically: none when no student
      matched; the first-year courses for a first-year student (and no
      field streams); the streams of the student's research fields for any
      other year. */
  function AutoStreams(student: Option<GradStudent>): (r: seq<string>)
    ensures student.None? ==> r == []
    ensures student.Some? && student.value.year == 1 ==> r == FirstYearCourseStreams
    ensures student.Some? && student.value.year != 1 ==> r == FieldsToStreams(FieldStreams, student.value.fields)
    ensures forall s :: s in r ==> (CoursePrefix <= s) != (FieldPrefix <= s)
    ensures student.Some? && student.value.year == 1 ==> forall s :: s in r ==> !(FieldPrefix <= s)
    ensures student.Some? && student.value.year != 1 ==> forall s :: s in r ==> !(CoursePrefix <= s)
  {
    match student
    case None => []
    case Some(st) =>
      if st.year == 1 then
        CourseStreamsAreCourses();
        FirstYearCourseStreams
      else
        var r := FieldsToStreams(FieldStreams, st.fields);
        assert forall s :: s in r ==> !(CoursePrefix <= s) by {
          forall s | s in r
            ensures !(CoursePrefix <= s)
          {
            PrefixesExclusive(s);
          }
        }
        r
  }

  /** No stream name is both a field and a course stream. */
  lemma PrefixesExclusive(s: string)
    ensures !(FieldPrefix <= s && CoursePrefix <= s)
  {
    if FieldPrefix <= s {
      assert s[0] == 'f';
    }
  }

  /** The first-year streams are course streams and not field streams. */
  lemma CourseStreamsAreCourses()
    ensures forall s :: s in FirstYearCourseStreams ==> CoursePrefix <= s && !(FieldPrefix <= s)
  {
    forall s | s in FirstYearCourseStreams
      ensures CoursePrefix <= s && !(FieldPrefix <= s)
    {
      assert s[0] == 'c';
      assert s[..7] == CoursePrefix;
    }
  }

  /** The values the welcome message is rendered from. */
  datatype WelcomeContext = WelcomeContext(
    name: string,
    courseStreams: seq<string>,
    fieldStreams: seq<string>,
    autoStreams: seq<string>,
    autoFieldStreams: seq<string>,
    autoCourseStreams: seq<string>,
    student: Option<GradStudent>)

  /** What the welcome of one user computes from the workspace's stream
      names and the directory, before subscribing the user and sending the
      message. */
  function PlanWelcome(allStreams: seq<string>, students: seq<GradStudent>, name: string, email: string): (w: WelcomeContext)
    ensures w.name == name
    ensures w.student == FindGradStudent(students, name, email)
    ensures w.autoStreams == AutoStreams(w.student)
    ensures w.courseStreams == Seqs.Filter(allStreams, HasPrefix(CoursePrefix))
    ensures w.fieldStreams == Seqs.Filter(allStreams, HasPrefix(FieldPrefix))
    ensures w.autoFieldStreams == Seqs.Filter(w.autoStreams, HasPrefix(FieldPrefix))
    ensures w.autoCourseStreams == Seqs.Filter(w.autoStreams, HasPrefix(CoursePrefix))
    ensures forall s :: s in w.courseStreams <==> s in allStreams && CoursePrefix <= s
    ensures forall s :: s in w.fieldStreams <==> s in allStreams && FieldPrefix <= s
    ensures forall s :: s in w.autoFieldStreams <==> s in w.autoStreams && FieldPrefix <= s
    ensures forall s :: s in w.autoCourseStreams <==> s in w.autoStreams && CoursePrefix <= s
    ensures |w.autoFieldStreams| + |w.autoCourseStreams| == |w.autoStreams|
    ensures forall s :: s in w.autoStreams ==> (s in w.autoFieldStreams) != (s in w.autoCourseStreams)
  {
    var student := FindGradStudent(students, name, email);
    var auto := AutoStreams(student);
    AutoStreamsPartition(student);
    WelcomeContext(
      name,
      Seqs.Filter(allStreams, HasPrefix(CoursePrefix)),
      Seqs.Filter(allStreams, HasPrefix(FieldPrefix)),
      auto,
      Seqs.Filter(auto, HasPrefix(FieldPrefix)),
      Seqs.Filter(auto, HasPrefix(CoursePrefix)),
      student)
  }

  /** The field and course sub-lists of the automatic streams split them:
      every automatic stream is in exactly one, so together they have all. */
  lemma AutoStreamsPartition(student: Option<GradStudent>)
    ensures var auto := AutoStreams(student);
      && |Seqs.Filter(auto, HasPrefix(FieldPrefix))| + |Seqs.Filter(auto, HasPrefix(CoursePrefix))| == |auto|
      && forall s :: s in auto ==> (s in Seqs.Filter(auto, HasPrefix(FieldPrefix))) != (s in Seqs.Filter(auto, HasPrefix(CoursePrefix)))
  {
    var auto := AutoStreams(student);
    assert forall i :: 0 <= i < |auto| ==> HasPrefix(FieldPrefix)(auto[i]) != HasPrefix(CoursePrefix)(auto[i]) by {
      forall i | 0 <= i < |auto|
        ensures HasPrefix(FieldPrefix)(auto[i]) != HasPrefix(CoursePrefix)(auto[i])
      {
        assert auto[i] in auto;
      }
    }
    Seqs.FilterPartition(auto, HasPrefix(FieldPrefix), HasPrefix(CoursePrefix));
  }

  // ---------------------------------------------------------------------
  // Stream mentions
  // ---------------------------------------------------------------------

  /** The stream's emoji, when it has a non-empty one. */
  function EmojiOf(stream: string): Option<string> {
    match OrderedMap.Get(StreamEmojis, stream)
    case Some(e) => if |e| > 0 then Some(e) else None
    case None => None
  }

  /** The template filter that mentions a stream: `#**stream**`, preceded by
      `:emoji: ` when the stream has an emoji. */
  function StreamMention(stream: string): (r: string)
    ensures EndsWith(r, "#**" + stream + "**")
    ensures EmojiOf(stream).None? <==> r == "#**" + stream + "**"
    ensures EmojiOf(stream).Some? ==> r == ":" + EmojiOf(stream).value + ": " + "#**" + stream + "**"
  {
    var plain := "#**" + stream + "**";
    match EmojiOf(stream)
    case Some(e) =>
      var r := ":" + e + ": " + plain;
      assert r[|r| - |plain|..] == plain;
      r
    case None => plain
  }

  /** The stream a mention names: the text between the first `#**` and the
      closing `**`. */
  function MentionedStream(mention: string): Option<string> {
    match Seqs.FirstIndex(mention, IsHash)
    case Some(i) => if i + 5 <= |mention| then Some(mention[i + 3..|mention| - 2]) else None
    case None => None
  }

  /** The emoji a mention shows: the text between a leading `:` and the
      `: ` just before the first `#`. */
  function MentionedEmoji(mention: string): Option<string> {
    match Seqs.FirstIndex(mention, IsHash)
    case Some(i) =>
      if 3 <= i && mention[0] == ':' && mention[i - 2..i] == ": " then Some(mention[1..i - 2]) else None
    case None => None
  }

  predicate IsHash(c: char) {
    c == '#'
  }

  /** The emoji names contain no `#`. */
  lemma EmojisHaveNoHash()
    ensures forall kv :: kv in StreamEmojis ==> '#' !in kv.1
  {
  }

  /** The text of a mention with emoji `e`. */
  function EmojiMention(e: string, stream: string): string {
    ":" + e + ": " + "#**" + stream + "**"
  }

  /** Where the parts of a mention with an emoji sit: when the emoji has no
      `#`, the first `#` follows the emoji and its `: `. */
  lemma EmojiMentionParts(e: string, stream: string)
    requires '#' !in e
    ensures var m := EmojiMention(e, stream);
      && Seqs.IsFirst(m, |e| + 3, IsHash)
      && m[0] == ':' && m[|e| + 1..|e| + 3] == ": " && m[1..|e| + 1] == e
      && m[|e| + 6..|m| - 2] == stream
  {
    var m := EmojiMention(e, stream);
    forall j | 0 <= j < |e| + 3
      ensures !IsHash(m[j])
    {
      if 1 <= j < |e| + 1 {
        assert m[j] == e[j - 1];
      }
    }
    assert m[|e| + 1..|e| + 3] == ": ";
    assert m[1..|e| + 1] == e;
    assert m[|e| + 6..|m| - 2] == stream;
  }

  /** A stream's emoji comes from the table, so it has no `#`, and the
      stream's mention shows it. */
  lemma EmojiMentionOf(stream: string, e: string)
    requires EmojiOf(stream) == Some(e)
    ensures '#' !in e && StreamMention(stream) == EmojiMention(e, stream)
  {
    var kv :| kv in StreamEmojis && kv == (stream, e);
    EmojisHaveNoHash();
  }

  /** A mention names the stream it was made for, with or without an emoji. */
  lemma MentionRoundTrip(stream: string)
    ensures MentionedStream(StreamMention(stream)) == Some(stream)
  {
    var m := StreamMention(stream);
    match EmojiOf(stream)
    case None =>
      assert Seqs.IsFirst(m, 0, IsHash);
      assert m[3..|m| - 2] == stream;
    case Some(e) =>
      EmojiMentionOf(stream, e);
      EmojiMentionParts(e, stream);
  }

  /** A mention shows the emoji of the stream it was made for, and none
      when the stream has none. */
  lemma MentionEmojiRoundTrip(stream: string)
    ensures MentionedEmoji(StreamMention(stream)) == EmojiOf(stream)
  {
    var m := StreamMention(stream);
    match EmojiOf(stream)
    case None =>
      assert Seqs.IsFirst(m, 0, IsHash);
    case Some(e) =>
      EmojiMentionOf(stream, e);
      EmojiMentionParts(e, stream);
  }

  /** Every address of the shape letters, four digits, `@`, domain loses
      exactly its digits. */
  lemma StripYearSuffixOf(letters: string, digits: string, domain: string)
    requires |letters| > 0 && All(letters, IsLetter)
    requires |digits| == 4 && All(digits, IsDigit)
    requires |domain| > 0 && All(domain, IsDomainChar)
    ensures StripYearSuffix(letters + digits + "@" + domain) == Some(letters + "@" + domain)
  {
    var e := letters + digits + "@" + domain;
    var k := |letters|;
    assert e[..k] == letters;
    assert e[k..k + 4] == digits;
    assert e[k + 5..] == domain;
    assert YearSuffixedAt(e, k);
  }

  /** No year suffix ends anywhere in an address with a non-letter in its
      local part before the last four characters: the digits and the `@`
      after them would have to sit where the first `@` is, and the letters
      cover the non-letter. */
  lemma NotSuffixedAt(e: string, at: nat, j: nat, k: int)
    requires Seqs.IsFirst(e, at, IsAt)
    requires j + 4 < at && !IsLetter(e[j])
    ensures !YearSuffixedAt(e, k)
  {
    if 0 < k && k + 6 <= |e| {
      if k + 4 < at {
        assert !IsAt(e[k + 4]);
      } else if at < k {
        assert e[..k][at] == e[at];
      } else if at < k + 4 {
        assert e[k..k + 4][at - k] == e[at];
      } else {
        assert e[..k][j] == e[j];
      }
    }
  }

  /** An address whose local part has a character other than a letter
      before its last four characters is never stripped: a dotted address
      such as `j.smith2024@u.northwestern.edu` keeps its digits. */
  lemma NonLetterLocalPartNotStripped(e: string, at: nat, j: nat)
    requires Seqs.IsFirst(e, at, IsAt)
    requires j + 4 < at && !IsLetter(e[j])
    ensures StripYearSuffix(e) == None
  {
    forall k
      ensures !YearSuffixedAt(e, k)
    {
      NotSuffixedAt(e, at, j, k);
    }
  }

  /** A Kellogg student is one whose email has the business school's domain as its tail. */
  lemma KelloggIff(st: GradStudent)
    ensures IsKellogg(st) <==> exists local :: local + KelloggDomain == st.email
  {
    if IsKellogg(st) {
      var local := st.email[..|st.email| - |KelloggDomain|];
      assert local + KelloggDomain == st.email;
    }
    if exists local :: local + KelloggDomain == st.email {
      var local :| local + KelloggDomain == st.email;
      assert st.email[|st.email| - |KelloggDomain|..] == KelloggDomain;
    }
  }

  // ---------------------------------------------------------------------
  // The bot's own tables at work
  // ---------------------------------------------------------------------

  /** A field that no key equals but some key starts with takes the stream
      of the first such key. */
  lemma PrefixField(t: seq<(string, string)>, field: string, i: nat)
    requires Seqs.NoneMatch(t, OrderedMap.HasKey(field)) && Seqs.IsFirst(t, i, KeyPrefixOf(field))
    ensures FieldToStream(t, field) == Some(FieldPrefix + t[i].1)
  {
  }

  /** A field equal to a key takes that key's stream. */
  lemma ExactField(t: seq<(string, string)>, field: string, i: nat)
    requires Seqs.IsFirst(t, i, OrderedMap.HasKey(field))
    ensures FieldToStream(t, field) == Some(FieldPrefix + t[i].1)
  {
  }

  /** The research-field table names each field once. */
  lemma FieldStreamKeysDistinct()
    ensures OrderedMap.DistinctKeys(FieldStreams)
  {
    var t := FieldStreams;
    forall i, j | 0 <= i < j < |t|
      ensures t[i].0 != t[j].0
    {
      assert |t[i].0| != |t[j].0| || t[i].0[0] != t[j].0[0];
    }
    OrderedMap.DistinctKeysIntro(t);
  }

  /** "Macroeconomics" is a key: its stream is `field/macro`. */
  lemma MacroeconomicsField()
    ensures FieldToStream(FieldStreams, "Macroeconomics") == Some(FieldPrefix + "macro")
  {
    FieldStreamKeysDistinct();
    OrderedMap.FirstOfDistinct(FieldStreams, 9);
    ExactField(FieldStreams, "Macroeconomics", 9);
  }

  /** "Development and Growth" is no key, but starts with "Development":
      its stream is `field/development`. */
  lemma DevelopmentAndGrowthField()
    ensures FieldToStream(FieldStreams, "Development and Growth") == Some(FieldPrefix + "development")
  {
    var t := FieldStreams;
    var field := "Development and Growth";
    assert Seqs.NoneMatch(t, OrderedMap.HasKey(field)) by {
      forall j | 0 <= j < |t|
        ensures !OrderedMap.HasKey(field)(t[j])
      {
        assert |t[j].0| != |field| || t[j].0[0] != field[0];
      }
    }
    assert t[0].0[0] != field[0];
    assert t[1].0 == field[..11];
    PrefixField(t, field, 1);
  }

  /** A field that starts with no key, such as "Accounting", has no stream
      and is dropped from the student's list. */
  lemma AccountingDropped()
    ensures FieldToStream(FieldStreams, "Accounting") == None
  {
    var t := FieldStreams;
    var field := "Accounting";
    assert Seqs.NoneMatch(t, KeyPrefixOf(field)) by {
      forall j | 0 <= j < |t|
        ensures !KeyPrefixOf(field)(t[j])
      {
        assert |t[j].0| > |field| || t[j].0[0] != field[0];
      }
    }
  }

  /** The first-year course streams replace the field streams: a first-year
      student with research fields joins only the courses. */
  lemma FirstYearIgnoresFields(st: GradStudent)
    requires st.year == 1
    ensures AutoStreams(Some(st)) == ["course/ECON 410-1", "course/ECON 411-1", "course/ECON 480-1"]
    ensures forall s :: s in AutoStreams(Some(st)) ==> s !in FieldsToStreams(FieldStreams, st.fields)
  {
    forall s | s in AutoStreams(Some(st))
      ensures s !in FieldsToStreams(FieldStreams, st.fields)
    {
      PrefixesExclusive(s);
    }
  }

  /** A user who signed up with the year-suffixed form of a directory
      address, in any letter case, and whose lower-cased address no student
      has, is found under the lower-cased address without the year. */
  lemma YearSuffixFallback(students: seq<GradStudent>, name: string, letters: string, digits: string, domain: string, i: nat)
    requires |letters| > 0 && All(letters, IsLetter)
    requires |digits| == 4 && All(digits, IsDigit)
    requires |domain| > 0 && All(Lower(domain), IsDomainChar)
    requires Seqs.NoneMatch(students, EmailIs(Lower(letters + digits + "@" + domain)))
    requires Seqs.IsFirst(students, i, EmailIs(Lower(letters) + "@" + Lower(domain)))
    ensures FindGradStudent(students, name, letters + digits + "@" + domain) == Some(students[i])
  {
    var e := letters + digits + "@" + domain;
    LowerConcat(letters, digits);
    LowerConcat(letters + digits, "@");
    LowerConcat(letters + digits + "@", domain);
    assert Lower(digits) == digits;
    assert Lower("@") == "@";
    assert Lower(e) == Lower(letters) + digits + "@" + Lower(domain);
    assert All(Lower(letters), IsLetter);
    StripYearSuffixOf(Lower(letters), digits, Lower(domain));
  }
}
