# Economics-department chat bots, modelled in Dafny

This project models the decision logic of three notification bots for a
university economics department's chat workspace:

- **Welcome bot** (`welcome-bot/main.py`). It matches a new chat user to a
  student of the graduate directory in three stages:
  1. the lower-cased email;
  2. the email with a four-digit year suffix removed;
  3. the name, ignoring case.

  It then computes the streams the user joins automatically. A first-year
  student gets the fixed course streams. Any other student gets the field
  streams of their research fields. A field is mapped by an exact key, else
  by the first key it starts with, else it is dropped. The bot also renders
  stream mentions, with an emoji for some course streams.
- **Events bot** (`events-bot/main.py`). It sorts calendar events into
  streams by calendar id, in table order. It keeps the events of today
  (daily) or of today up to the coming Sunday (weekly), and groups the weekly
  events by date. It writes one message per stream with events in the
  period, under topic `events`. An unknown period is an error.
- **Working-papers bot** (`working-papers-bot/main.py`). It keeps the
  search results that are working papers flagged new this week. It fixes
  their links: the fragment is dropped and a root-relative path is made
  absolute on `https://www.nber.org`. For each stream it merges the papers
  of all its searches into one dictionary keyed by URL, and writes one
  message per stream that found papers, under topic `working papers`.

How the model is laid out:

- **Dictionaries** are insertion-ordered sequences of pairs (`OrderedMap`).
  - Lookup takes the first entry with a key.
  - Assignment replaces a present key's value in place and appends a new
    key, as a Python `dict` does.
  - The bots' constant tables are written the same way, in declaration
    order.
- **Dates** are day ordinals, as `date.toordinal()` gives them.
- **Outside data is a parameter.** The HTTP fetches, the directory, the
  event feed and the clock's "today" are all passed in. The search API is a
  function `fetch(facet, term)`, so the model answers a repeated query the
  same way each time (see "Left out").

Modules:

- `Wrappers`: `Option` and `Result`.
- `Seqs`: first-hit search, filter and map over sequences.
- `Text`: ASCII lower-casing, `endswith` and the regular-expression
  character classes.
- `OrderedMap`: the dictionary model.
- `Welcome`, `Events` and `WorkingPapers`: the three bots.

First-year students get the course streams only
(`welcome-bot/main.py:124-127`), whatever their research fields;
`Welcome.FirstYearIgnoresFields` states it.

## Model

| member | source | states |
|---|---|---|
| Welcome.KelloggIff | welcome-bot/main.py:23-24 | a student is a Kellogg student exactly when the email is some local part followed by `@kellogg.northwestern.edu` |
| Welcome.StripYearSuffix | welcome-bot/main.py:169-172 | for an address of the shape letters, four digits, `@`, domain of lower-case letters and dots, the result is the letters, `@` and the domain; an address of any other shape gives none |
| Welcome.StripYearSuffixOf | welcome-bot/main.py:169-172 | every address built from a non-empty run of letters, four digits, `@` and a non-empty domain loses exactly its four digits |
| Welcome.NonLetterLocalPartNotStripped | welcome-bot/main.py:169-170 | an address with a non-letter (such as a dot) in its local part before the last four characters is never stripped |
| Welcome.FindGradStudent | welcome-bot/main.py:161-183 | the first student with the lower-cased email wins; else, for a year-suffixed address, the first student with the stripped address; else the first student with the same name ignoring case; none exactly when all three stages miss; a match is always a directory student |
| Welcome.YearSuffixFallback | welcome-bot/main.py:167-176 | a user whose year-suffixed address, in any letter case, no student has once lower-cased is found as the first student listed under the lower-cased address without the year |
| Welcome.FieldToStream | welcome-bot/main.py:88-96 | the stream of the first key equal to the field, else of the first key the field starts with, always `field/` plus a table slug of a key that prefixes the field; none exactly when no key prefixes the field |
| Welcome.ExactField | welcome-bot/main.py:89-90 | a field equal to a table key takes that key's stream |
| Welcome.PrefixField | welcome-bot/main.py:92-94 | a field equal to no key takes the stream of the first key it starts with |
| Welcome.MacroeconomicsField | welcome-bot/main.py:45 | with the bot's table, `Macroeconomics` maps to `field/macro` |
| Welcome.DevelopmentAndGrowthField | welcome-bot/main.py:92-94 | with the bot's table, `Development and Growth` equals no key and maps by prefix to `field/development` |
| Welcome.AccountingDropped | welcome-bot/main.py:96 | with the bot's table, `Accounting` starts with no key and has no stream |
| Welcome.FieldsToStreams | welcome-bot/main.py:98-105 | the streams are exactly those of the fields that have one, all `field/` streams, no more of them than fields |
| Welcome.FieldsToStreamsAppend | welcome-bot/main.py:99-103 | the mapping works field by field: the streams of a concatenation are the concatenated streams, so they follow field order |
| Welcome.AutoStreams | welcome-bot/main.py:119-127 | no match gives no streams; a first-year student gets the three course streams and no field stream; any other year gets the field streams of the student's fields and no course stream |
| Welcome.FirstYearIgnoresFields | welcome-bot/main.py:124-127 | a first-year student joins the three course streams whatever the research fields, and none of the field streams |
| Welcome.PlanWelcome | welcome-bot/main.py:113-146 | the welcome is rendered for the user's name, the matched student and the automatic streams; the course and field lists are the workspace streams with the `course/` and `field/` prefixes, and the automatic field and course lists the automatic streams with those prefixes, each in its original order; the two automatic lists split the automatic streams |
| Welcome.AutoStreamsPartition | welcome-bot/main.py:143-144 | every automatic stream lands in exactly one of the field and course sub-lists, and their lengths add up |
| Welcome.StreamMention | welcome-bot/main.py:153-158 | a mention ends with `#**stream**` and is exactly that when the stream has no emoji; a stream with an emoji is mentioned as `:emoji: #**stream**` |
| Welcome.MentionEmojiRoundTrip | welcome-bot/main.py:153-158 | reading back the emoji between the leading `:` and the `: ` before the first `#` gives the stream's emoji, and none when it has none |
| Welcome.MentionRoundTrip | welcome-bot/main.py:153-158 | reading back the stream named between the first `#**` and the closing `**` of a mention gives the stream it was made for |
| Events.CollectStream | events-bot/main.py:120-122 | for a stream not yet in the dictionary, the inner loop adds one entry holding the stream's events in order, or none when it has none |
| Events.EventsPerFieldSpec | events-bot/main.py:116-124 | with distinct streams, the result is the table's buckets in table order, each stream with its calendars' events in event order, empty buckets left out |
| Events.BucketMembership | events-bot/main.py:116-124 | an event is in a stream's bucket exactly when it is one of the events and the stream lists its calendar |
| Events.StreamCalendarKeysDistinct | events-bot/main.py:23-34 | the calendar table names each stream once |
| Events.SharedCalendar | events-bot/main.py:27-33 | calendar 4559 is listed by the health, labor and public-economics streams and by no other |
| Events.ComingSunday | events-bot/main.py:129 | the end of the week is a Sunday zero to six days after today, and no day between is a Sunday |
| Events.WeeklyWindowExamples | events-bot/main.py:128-129 | the week of Wednesday 3 January 2024 ends on Sunday 7 January; on a Sunday it is that day alone |
| Events.ParsePeriod | events-bot/main.py:131-155 | `daily` and `weekly` are the only periods; anything else is an error naming it |
| Events.FilterEvents | events-bot/main.py:131-142 | the daily filter keeps exactly the events starting today; the weekly one exactly those from today up to the coming Sunday |
| Events.FilterEventsAppend | events-bot/main.py:130-141 | the filters keep input order: filtering two runs of events one after the other gives the two filtered runs one after the other |
| Events.FilterEventsSingle | events-bot/main.py:130-141 | one event is kept exactly when it starts today (daily) or between today and the coming Sunday (weekly) |
| Events.DailyWithinWeekly | events-bot/main.py:131-142 | every event of the daily digest is also in the weekly digest of the same day |
| Events.GroupByDayGroups | events-bot/main.py:144-148 | each date with events has one entry holding exactly its events in order, dates without events have none, no date appears twice, and the dates come in the order they first turn up in the events |
| Events.GroupByDayExactlyOne | events-bot/main.py:146-148 | every event is in exactly one date group: the one of its own start date, which exists |
| Events.StreamMessages | events-bot/main.py:157-169 | one message per stream with events in the period, in stream order, carrying that period's digest, under topic `events` |
| Events.MakeMessages | events-bot/main.py:127-169 | an unknown period is an error naming it, and a known one never is; every message has topic `events`; there are no more messages than streams |
| WorkingPapers.Defrag | working-papers-bot/main.py:133 | the result is the longest prefix of the URL without `#` |
| WorkingPapers.FixUrl | working-papers-bot/main.py:132-138 | the fixed link has no fragment and does not start with `/`; a fragment-free link not starting with `/` is kept; a root path is put under `https://www.nber.org` |
| WorkingPapers.FixUrlIdempotent | working-papers-bot/main.py:132-138 | fixing a fixed link changes nothing |
| WorkingPapers.FixUrlIgnoresFragment | working-papers-bot/main.py:133 | links that differ only in their fragment are fixed alike |
| WorkingPapers.ToAuthor | working-papers-bot/main.py:169-176 | an author keeps the text as name, and has a fixed link exactly when the entry has one |
| WorkingPapers.ToPaper | working-papers-bot/main.py:161-183 | a paper keeps the result's title and abstract, its URL is the fixed result URL without fragment, and its authors are the result's author entries converted one by one, in order |
| WorkingPapers.NewWorkingPapers | working-papers-bot/main.py:154-159 | the papers are those of the results that are working papers flagged new, in result order |
| WorkingPapers.LastWithUrl | working-papers-bot/main.py:191-192 | the paper found for a URL is one with that URL that no later paper shares; none exactly when no paper has it |
| WorkingPapers.MergePapers | working-papers-bot/main.py:191-192 | keys already present keep their places, each URL ends up with the last paper that has it, URLs not among the papers are unchanged, and no key is added when all URLs are present |
| WorkingPapers.AddKeys | working-papers-bot/main.py:191-192 | assigning to a run of URLs keeps the keys there were, adds exactly the new URLs, and keeps keys distinct |
| WorkingPapers.MergePapersKeys | working-papers-bot/main.py:191-192 | after a merge the keys are the earlier keys followed by each new URL in the order of its first paper |
| WorkingPapers.MergePapersKeysSnoc | working-papers-bot/main.py:191-192 | one more paper appends its URL to the keys when it is new and leaves them as they are otherwise |
| WorkingPapers.MergePapersAppend | working-papers-bot/main.py:191-192 | merging two runs of papers is merging the first run, then the second |
| WorkingPapers.MergeTermsFlat | working-papers-bot/main.py:190-192 | merging search by search is merging the papers of all searches, one search after another, in a single run |
| WorkingPapers.StreamPapersLastFound | working-papers-bot/main.py:188-192 | each URL of a stream's dictionary holds the last paper found with it over all searches in order, and the URLs come in the order they were first found |
| WorkingPapers.MergeTerms | working-papers-bot/main.py:190-193 | after all of a stream's searches, the keys are the earlier keys plus every URL some search found, and every changed paper was found by some search |
| WorkingPapers.StreamPapers | working-papers-bot/main.py:188-193 | a stream's dictionary has exactly the URLs its searches found, each once and keyed by its own paper's URL |
| WorkingPapers.MergeTermsAppend | working-papers-bot/main.py:190-193 | merging two runs of searches is merging the first run, then the second |
| WorkingPapers.RepeatedSearchAddsNoUrl | working-papers-bot/main.py:188-193 | a search already made for a stream, when the search API answers it the same way again, adds no URL and moves none |
| WorkingPapers.RepeatedSearchAt | working-papers-bot/main.py:188-193 | dropping a repeated search leaves the stream's URLs and their order as they are |
| WorkingPapers.MacroSearchRepeats | working-papers-bot/main.py:72-77 | the macroeconomics stream makes its first search again as its fourth |
| WorkingPapers.StreamSearchKeysDistinct | working-papers-bot/main.py:21-109 | the search table names each stream once |
| WorkingPapers.MessagesOf | working-papers-bot/main.py:195-205 | one message per non-empty dictionary, in order, listing its papers, under topic `working papers` |
| WorkingPapers.StreamMessages | working-papers-bot/main.py:186-205 | one message per stream whose searches found papers, in table order, never an empty one, under topic `working papers` |
| WorkingPapers.MessageIff | working-papers-bot/main.py:187-205 | a stream gets a message with some papers exactly when the table lists it with searches whose merged dictionary has those papers, and they are not none |
| WorkingPapers.ValuesUrls | working-papers-bot/main.py:192-198 | the listed papers' URLs are the dictionary's keys in order, so no URL is listed twice |
| WorkingPapers.MessagePapers | working-papers-bot/main.py:188-198 | a stream's message lists every URL its searches found exactly once, and only papers its searches found |
| WorkingPapers.NoSearchesNoMessage | working-papers-bot/main.py:190-196 | a stream listed with no searches, and not listed twice, never gets a message |
| WorkingPapers.AppliedMicroNeverAnnounced | working-papers-bot/main.py:22 | the applied-microeconomics stream never gets a working-papers message |
| WorkingPapers.MakeMessages | working-papers-bot/main.py:186-205 | every message has topic `working papers` and lists some papers, and there are no more messages than streams |

## Left out

- Network and SDK calls are left out because they are I/O. This covers the
  directory scrape, the event feed, the search API request with its
  `raise_for_status`, and every Zulip client call. Their results are
  parameters, and a failed request or a failed send is not modelled.
- Parsing is left out because it happens in libraries. This covers the
  directory's HTML, the event JSON (`int`, `strptime`, `html.unescape`,
  `markdownify`) and each author's HTML via BeautifulSoup.
  - `RawAuthor` stands for an author entry after parsing.
- The year check and research-field split in the directory scraper
  (`welcome-bot/main.py:73-81`) are not modelled. The fields are an input.
  The `re.split(r",|and", ...)` there also splits inside words; this model
  does not cover that.
- Templates are left out because they are presentation. Jinja rendering
  becomes the data the template is given: the welcome context, the daily
  events or events by date, and the papers of a stream.
- `print_message`, `argparse`, the `ZULIPRC` check, `sys.exit` and
  `time.sleep` are left out because they are process glue.
- Clock time is left out. `datetime.now()`, pytz localisation and start
  times are replaced by day ordinals and a `today` parameter.
  - Dates near `date.max` would overflow in `today + timedelta(...)`; the
    model's integers do not.
- The event URL property (`events-bot/main.py:61-63`) only formats a
  string for the template, so it is not modelled.
- The error for an unknown period (`events-bot/main.py:155`) uses the
  global `args.period`. The model uses the `period` argument, which is the
  same value when the bot runs as a program.
- Text.Lower: only ASCII `A`-`Z` are lower-cased, where `str.lower()`
  covers all of Unicode.
- Welcome.StripYearSuffix models `\d` as the ASCII digits and `$` as the
  end of the string. Python's `\d` also matches other Unicode digits, and
  its `$` also matches before a final newline.
- WorkingPapers.FixUrl models `urljoin` for a path with a single leading
  `/`, and for `//host` as `https:` followed by the link. It does not model
  `.` and `..` segment removal or the rest of RFC 3986 reference
  resolution.
  - `urljoin` rebuilds the link with `urlunparse`, which drops an empty
    `?` or `;`: `/a?` becomes `https://www.nber.org/a`, where the model
    gives `https://www.nber.org/a?`.
  - `urlsplit` removes tab, CR and LF characters and strips leading
    control characters and spaces. So ` /a#x` is made absolute by the bot,
    while the model keeps ` /a`.
  - It leaves out the degenerate forms `//` and `///x`, whose host is empty.
    `urljoin` keeps the base's host `www.nber.org` for these, while the model
    puts `https:` in front of them.
- WorkingPapers.RepeatedSearchAddsNoUrl relies on the search being a
  function: two identical queries get identical answers. The bot sends a
  separate request for each search, and nothing makes the API answer a
  repeated query the same way, for instance when a paper is published
  between the two requests. WorkingPapers.RepeatedSearchAt and
  WorkingPapers.MacroSearchRepeats carry the same assumption.
- WorkingPapers.IsNew models `newthisweek` as an optional boolean. Other
  truthy JSON values, such as a non-empty string or a non-zero number, are
  not modelled.
- WorkingPapers.Defrag cuts at the first `#`. When a `#` is present,
  `urldefrag` also rebuilds the URL with `urlunparse`. That can lower-case
  the scheme and drop an empty `?` or `;` before the fragment, and the
  model does not do either.
- Events.MakeMessages states the period error, the topic and the number of
  messages. The message contents are stated by Events.StreamMessages and
  Events.EventsPerFieldSpec, which it is built from.
- WorkingPapers.MakeMessages states the topic and the number of messages.
  The contents are stated for any table by WorkingPapers.StreamMessages and
  WorkingPapers.MessageIff, which it is built from.
