# School chatbot: a Dafny model of its logic

The application is a school chatbot with a calendar of academic events.
Most of it is user interface. This project models the parts that compute
something, as pure functions over integers, sequences and strings.

- **Calendar bar layout** (`CalendarLayout`, over `Dates` and `Ordering`).
  The academic calendar builds a Sunday-to-Saturday month grid. It keeps
  the events that meet the grid and sorts them by start day ascending,
  with ties broken by end day descending. It cuts each event into one
  piece per row, and gives each piece the first free track of its week,
  out of six. A piece for which no track is free is dropped.
  - Days are integer day numbers; day 0 is 1970-01-01, a Thursday.
  - An instant is either midnight of a day (`At`) or the end of a day
    (`EndOf`). This keeps the grid's `endOfWeek` end exact.
- **Chat routing and menu replies** (`ChatRouting`). The bot picks an
  answer by first-match-wins keyword rules. A meal request is answered
  by the menu reply builder, which for the dormitory files every line
  under the breakfast, lunch or dinner marker in force.
- **Notice and menu reshaping** (`Json`, `NoticeGateway`). The notice
  text uses the first three notices, with a chain of field fallbacks.
  The menu list keeps valid meals, sorts them stably by date, keeps at
  most ten, and splits each menu into trimmed lines. The fetch outcome
  is an input.
- **Notice proxy** (`NoticeRoute`). A fixed category table decides
  between a 400 answer and a forwarded request. The upstream outcome
  then decides the status.
- **Link rewrite in the message bubble** (`LinkRewrite`). An assistant
  line `[• ]text (http…)` becomes `[• ][text](url)` plus a newline. The
  regular expression is modelled on one line, in the search order of a
  backtracking matcher.
- **Day markings of the two calendar screens** (`DayMarking`). One
  screen stacks a coloured period per event on each day. The other lets
  a later event overwrite an earlier one. Both list the events of the
  selected day.
- **Small controllers**:
  - the two chat screens' message lists (`ChatSession`, `EnhancedChat`);
  - the input box (`ChatInput`);
  - the image carousel (`Carousel`);
  - the tutorial overlay (`Tutorial`);
  - the colour-scheme hook (`ColorScheme`).

JavaScript behaviour is written out explicitly:

- `String.prototype.trim` uses the ECMAScript white-space and
  line-terminator set (`Text.IsSpace`).
- `includes`, `split` and `join` are defined on `seq<char>`.
- `%` truncates toward zero, and `x % 0` is `NaN`, modelled as `None`
  (`Carousel.JsRem`).
- `??` and `||` are separate tests: `Json.Defined` and `Json.Truthy`.
- date-fns behaves as in version 2:
  - `eachDayOfInterval` throws on a reversed or unparsable interval. A
    screen whose marking builder throws has no marking, modelled as
    `None`.
  - `isWithinInterval` throws the same way, and the surrounding `catch`
    answers false.

One regular-expression detail shows up in the model.
`LinkRewrite.SpaceText` shows that a line of two spaces followed by
`(http://x)` is rewritten with a single space as its link text. This is
because the text group `.+?` may be a white-space character. So
`LinkRewrite.TextEndsClean` promises a text without trailing white space
only when the text is longer than one character.

## Model

| member | source | states |
|---|---|---|
| Text.Trim | app/actions/get-notice.ts:81 | trimming removes white space at the two ends and nothing else: the result is a slice of the input with only white space before and after it, it has no white space at either end, and it is empty exactly when the input is all white space |
| Text.TrimIdempotent | components/ChatInput.tsx:19-20 | trimming text that is already trimmed changes nothing, so the text sent is the text the guard tested |
| Text.ContainsAt | components/chat-interface.tsx:121 | `includes` holds exactly when the keyword occurs at some position of the message |
| Text.JoinSplit | app/actions/get-notice.ts:81 | splitting on a character and joining with it gives back the original text |
| Text.SplitJoin | app/actions/get-notice.ts:81 | splitting a join of separator-free pieces gives back the pieces |
| Text.NatToStringInjective | components/tutorial-overlay.tsx:80 | distinct numbers print as distinct decimal strings |
| Ordering.SortBy | components/calendar-modal.tsx:271-274 | the sort yields a sorted permutation that keeps the input order among elements with equal keys |
| Ordering.StableSortUnique | components/calendar-modal.tsx:271-274 | any two stable sorts of the same list agree, so the order the layout sees is determined |
| Selection.Filter | components/calendar-modal.tsx:267-269 | a filter keeps exactly the elements passing the test, each as often as in the input, in their original order |
| Selection.Take | app/actions/get-notice.ts:78 | `slice(0, n)` is the first `min(n, length)` elements |
| Dates.DaysInMonth | components/calendar-modal.tsx:258 | a month has 28 to 31 days |
| Dates.MonthLength | components/calendar-modal.tsx:256-258 | the first of the next month, January of the next year after December, lies exactly the month's length of days after the first of this month |
| Dates.StartOfWeek | components/calendar-modal.tsx:257 | `startOfWeek` gives the Sunday of the week holding the day |
| Dates.LastDayOfWeek | components/calendar-modal.tsx:259 | the day of `endOfWeek` is the Saturday of the week holding the day |
| Dates.DifferenceInDays | components/calendar-modal.tsx:272-273 | the difference of two midnights is the day difference; an end of day against an earlier midnight truncates to the day difference |
| CalendarLayout.DaysBetween | components/calendar-modal.tsx:260 | `eachDayOfInterval` lists every day from start to end, consecutively |
| CalendarLayout.Rows | components/calendar-modal.tsx:262-265 | cutting the day list into slices of seven gives full rows that keep the days in order |
| CalendarLayout.GridShape | components/calendar-modal.tsx:256-265 | the grid starts on a Sunday at most six days before the month, ends on a Saturday at most six days after it, and every row holds seven consecutive days, Sunday to Saturday |
| CalendarLayout.MonthRows | components/calendar-modal.tsx:256-265 | a month grid has four to six rows |
| CalendarLayout.FindWeek | components/calendar-modal.tsx:284-285 | `findIndex` gives the first row holding the instant, or -1 when no row holds it |
| CalendarLayout.FindWeekInGrid | components/calendar-modal.tsx:259-285 | a midnight inside the grid is found in its own row, one outside is not, and the end of a Saturday is found in no row |
| CalendarLayout.VisibleIff | components/calendar-modal.tsx:267-269 | an event is kept exactly when it starts by the grid's last day and ends on or after its first day |
| CalendarLayout.SortedOrder | components/calendar-modal.tsx:271-274 | events are processed by start day ascending, and among equal starts the later end comes first |
| CalendarLayout.Prioritized | components/calendar-modal.tsx:267-274 | the processed events are exactly the visible ones, sorted, with ties kept in data order |
| CalendarLayout.PieceOfRow | components/calendar-modal.tsx:290-313 | the piece of one row starts at the later of the event start and the row's Sunday, and its length is capped at Saturday |
| CalendarLayout.WeekSegmentsShape | components/calendar-modal.tsx:289-313 | the row loop gives one piece per row from the start row to the end row, each inside its row |
| CalendarLayout.RowOfDay | components/calendar-modal.tsx:284-285 | a day of the grid lies in the row numbered by its offset from the grid start divided by seven |
| CalendarLayout.EventSegmentsRows | components/calendar-modal.tsx:281-289 | when the clipped range lies inside the grid, the pieces are those of the rows from the row of its start to the row of its end |
| CalendarLayout.EventSegmentsCover | components/calendar-modal.tsx:281-313 | clipped at a midnight inside the grid, an event gets one piece in each row its clipped range touches, and the lengths add up to the clipped day count |
| CalendarLayout.ClippedEventVanishes | components/calendar-modal.tsx:259-289 | as written, an event ending after the grid gets no piece in any row, because its clipped end lies in no row |
| CalendarLayout.FirstFreeFrom | components/calendar-modal.tsx:299-302 | the track scan stops at the first track not in use, or at six when all are taken |
| CalendarLayout.FirstFreeOfRange | components/calendar-modal.tsx:299-302 | when tracks 0 to k-1 are taken, the scan gives k |
| CalendarLayout.PlaceFrom | components/calendar-modal.tsx:299-314 | the reference placement puts a week's pieces on consecutive tracks and drops those past the sixth track |
| CalendarLayout.AssignInWeek | components/calendar-modal.tsx:299-314 | the first-fit pass gives each week's pieces, in processing order, tracks 0, 1, 2 and so on, and drops the rest |
| CalendarLayout.AssignFresh | components/calendar-modal.tsx:299-306 | each placed piece is a candidate piece on a track in 0 to 5 that was free in its week |
| CalendarLayout.AssignNoCollision | components/calendar-modal.tsx:299-306 | no two placed pieces of one week share a track |
| CalendarLayout.LayoutTracks | components/calendar-modal.tsx:276-316 | every bar's track is below six, no two bars of a week share a track, and each week's bars are its pieces first-fit from track 0 |
| CalendarLayout.WeekSegmentsEvent | components/calendar-modal.tsx:308-314 | every piece of the row loop belongs to the event being laid out |
| CalendarLayout.CandidatesFrom | components/calendar-modal.tsx:280-314 | every candidate piece belongs to one of the processed events and comes from that event's pieces |
| CalendarLayout.PieceOfVisible | components/calendar-modal.tsx:281-313 | each piece of a visible event is a bar inside the grid that starts at the event's first day in its row and stops by Saturday |
| CalendarLayout.LayoutPieces | components/calendar-modal.tsx:255-318 | every bar of the layout belongs to a listed event and lies inside the grid; clipped at the end of the last Saturday, only events ending inside the grid get a bar |
| CalendarLayout.EventsOn | components/calendar-modal.tsx:323-325 | the events of a day are exactly those whose range contains it, each as often as in the data, in data order |
| CalendarLayout.SelectedEvents | components/calendar-modal.tsx:327 | nothing is listed until a day is selected; then the list is the events of that day, in data order |
| CalendarLayout.ListedIsVisible | components/calendar-modal.tsx:267-325 | an event listed for a day of the grid is one of the events the layout processes |
| CalendarLayout.TypeLabel | components/calendar-modal.tsx:180-231 | an unknown event type is labelled "기타", and only an unknown one |
| CalendarLayout.LegendAgrees | components/calendar-modal.tsx:553-561 | the legend lists every known type once, with the label its bars carry, and distinct known types have distinct labels |
| CalendarLayout.NextMonth | components/calendar-modal.tsx:244 | the next month is one month later, rolling December over into January |
| CalendarLayout.PreviousMonth | components/calendar-modal.tsx:243 | the previous month is one month earlier, rolling January back into December |
| CalendarLayout.NextPreviousInverse | components/calendar-modal.tsx:243-244 | going forward then back, or back then forward, returns to the same month |
| CalendarLayout.JanuaryGrid | components/calendar-modal.tsx:256-265 | the January 2025 grid runs from Sunday 29 December 2024 to Saturday 1 February 2025 in five rows |
| CalendarLayout.January2025 | components/calendar-modal.tsx:259-289 | for January 2025, an event from 6 January to 27 February gets no bar as written, but one bar in each of rows 1 to 4 when clipped at midnight |
| Json.Field | app/actions/get-notice.ts:19 | `item?.field` is present exactly when the item is an object holding the field |
| Json.TruthyIsDefined | app/actions/get-notice.ts:29 | a truthy field is neither missing nor null |
| Json.FirstDefined | app/actions/get-notice.ts:22-27 | a `??` chain yields the first field that is neither missing nor null, or nothing when there is none |
| NoticeGateway.TitleOf | app/actions/get-notice.ts:19 | the title is the title field unless it is missing or null, in which case it is "제목 없음" |
| NoticeGateway.DateOfFirstDefined | app/actions/get-notice.ts:22-27 | the date is the first of noticeDate, date, regDate, createdAt and postedAt that is neither missing nor null, else "날짜 없음" |
| NoticeGateway.UrlLine | app/actions/get-notice.ts:29 | a URL line is added exactly when the url field is truthy |
| NoticeGateway.NoticeText | app/actions/get-notice.ts:1-39 | non-ok gives the server error text; a non-array or empty answer gives "<category> 공지를 찾을 수 없습니다."; a failure gives the load error text; otherwise the header and one to three entries joined by a blank line |
| NoticeGateway.NoticeTextFirstThree | app/actions/get-notice.ts:18 | only the first three notices affect the text |
| NoticeGateway.FirstEntry | app/actions/get-notice.ts:31-34 | the text opens with the header and then the first notice's entry |
| NoticeGateway.EntryOne | app/actions/get-notice.ts:31 | the first entry is numbered 1 and shows the title, the date in parentheses and the URL line |
| NoticeGateway.MenuLines | app/actions/get-notice.ts:81 | every menu line is trimmed, non-empty and holds no newline |
| NoticeGateway.MenuLinesSplitTrimFilter | app/actions/get-notice.ts:81 | the menu lines are the pieces of the menu split at newlines, each trimmed, with the empty ones dropped, in order |
| NoticeGateway.MenuLinesJoin | app/actions/get-notice.ts:81 | a menu written as clean lines joined by newlines splits back into those lines |
| NoticeGateway.NonEmptyTrimmedFixed | app/actions/get-notice.ts:81 | trimming and dropping empties leaves a list of clean lines unchanged |
| NoticeGateway.MenuLinesNonEmpty | app/actions/get-notice.ts:63-81 | a menu that is not blank after trimming yields at least one line |
| NoticeGateway.MealOf | app/actions/get-notice.ts:78-91 | a kept meal's menu is its split, trimmed, non-empty lines, at least one of them; its date is mealDate if truthy, else date if truthy, else "날짜 없음", and its time likewise from mealTime, time and "시간 없음" |
| NoticeGateway.KeptInOrder | app/actions/get-notice.ts:60-71 | the sorted list holds only kept items, oldest date first, and is empty exactly when no item is kept |
| NoticeGateway.KeptInOrderStable | app/actions/get-notice.ts:60-71 | the sorted list is a permutation of the kept items, and among kept items with equal dates it keeps the answer's order |
| NoticeGateway.ChooseMeals | app/actions/get-notice.ts:60-78 | the filter succeeds exactly when no item makes it throw and some item is kept; then the chosen items are the first min(10, kept) of the kept items sorted oldest first |
| NoticeGateway.SelectMeals | app/actions/get-notice.ts:41-78 | meals are chosen exactly for an ok, non-empty array answer that does not make the filter throw and keeps some item, and they are then the first min(10, kept) of the sorted kept items; otherwise the function throws |
| NoticeGateway.SelectMealsStable | app/actions/get-notice.ts:67-78 | among kept items with equal dates, the chosen ones are the earliest in the answer |
| Selection.WithKeyTake | app/actions/get-notice.ts:78 | cutting the sorted list short keeps a prefix of each date's items |
| NoticeGateway.MenuForCategory | app/actions/get-notice.ts:41-94 | it fails exactly when the selection throws; otherwise it gives min(10, kept) meals, the meal of each chosen item in order, each with at least one menu line |
| ChatRouting.AnyContainsIff | components/chat-interface.tsx:189-192 | a rule with several keywords fires exactly when the message includes one of them |
| ChatRouting.FirstFiring | components/chat-interface.tsx:121-221 | the chosen rule fires, and no earlier rule fires |
| ChatRouting.RouteOfTable | components/chat-interface.tsx:118-223 | the `if`/`else if` chain is the first-match-wins reading of the rule table, with the greeting when no rule fires |
| ChatRouting.KeysOf | components/chat-interface.tsx:121-221 | each rule of the table fires on exactly the keywords the chain tests for it |
| ChatRouting.GenericMealRoute | components/chat-interface.tsx:189-212 | the generic meal words route to the student menu captioned "오늘의 식단" exactly when no notice rule and no specific meal rule fired |
| ChatRouting.FallbackIff | components/chat-interface.tsx:223 | the greeting is the answer exactly when no rule fires |
| ChatRouting.SpecificBeforeGeneric | components/chat-interface.tsx:189-211 | "학생 학식" also holds the generic "학식", but without a notice keyword it gets the student menu |
| ChatRouting.NoticeBeforeCanned | components/chat-interface.tsx:123-217 | "장학금 공지" also holds "장학금", but it routes to the scholarship notices |
| ChatRouting.GroupSections | components/chat-interface.tsx:150-164 | the dormitory loop files every line under the meal announced by the last marker at or before it |
| ChatRouting.GroupFromSections | components/chat-interface.tsx:152-164 | the loop keeps, as an invariant, every line seen so far filed under its meal in force |
| ChatRouting.Unmarked | components/chat-interface.tsx:153-159 | the unmarked prefix is the run of lines before the first marker line |
| ChatRouting.SlotAtSome | components/chat-interface.tsx:150-161 | a line has a meal in force exactly when a marker line comes at or before it |
| ChatRouting.SectionsDropLeading | components/chat-interface.tsx:161-163 | exactly the lines before the first marker are dropped; the three sections together hold every other line |
| ChatRouting.PlainBlock | components/chat-interface.tsx:177 | a non-dormitory menu block starts with "- " and the first line |
| ChatRouting.BulletLines | components/chat-interface.tsx:177 | there is one bullet line per menu line, in order, each the menu line after "- " |
| ChatRouting.MealBlocksAppend | components/chat-interface.tsx:141-179 | the blocks of two runs of meals are the first run's blocks followed by the second's, so every meal gets its block, in order |
| ChatRouting.MealBlockLines | components/chat-interface.tsx:142-177 | outside the dormitory, a meal's block read line by line is an empty line, "<date> (<time>)", one "- <line>" per menu line in order, and two empty lines |
| ChatRouting.JoinThenStartsWith | components/chat-interface.tsx:177 | a joined list followed by a blank line starts with its first element |
| ChatRouting.BulletsOfClean | components/chat-interface.tsx:169-171 | on already trimmed lines, the dormitory layout shows each line as "- <line>" and a newline, in order |
| ChatRouting.LatestMenuText | components/chat-interface.tsx:132-186 | a failure gives "<caption> 정보를 가져오는 데 오류가 발생했습니다.", no meals give "<caption> 식단 정보가 없습니다.", and otherwise the reply opens with the header and the first meal's date and time |
| ChatRouting.MenuReplyStart | components/chat-interface.tsx:139-181 | the trimmed reply keeps the header and the first meal's date line at its start |
| ChatRouting.PlainReply | components/chat-interface.tsx:139-181 | outside the dormitory, the trimmed reply followed by the blank lines `trim` dropped is the header followed by every meal's block |
| ChatRouting.MenuReply | components/chat-interface.tsx:132-186 | for the menu of a fetch: the error text when the menu cannot be had; otherwise the reply opens with the header and first date line and, outside the dormitory, holds every meal's block |
| ChatRouting.BotNotice | components/chat-interface.tsx:118-129 | when a notice rule is the first to fire, the reply is that category's notice text for what its fetch gives |
| ChatRouting.BotMenu | components/chat-interface.tsx:132-212 | when a meal rule is the first to fire, the reply is the error text for a menu that cannot be had; otherwise it opens with the header and the first meal's date line, is never the "no meals" text, and outside the dormitory is the header and every meal's block |
| ChatRouting.DormTrimsLess | components/chat-interface.tsx:141-181 | in the dormitory, a last meal with no marker line shows only its date line, and `trim` then drops one newline instead of two |
| ChatRouting.BotCanned | components/chat-interface.tsx:214-221 | when a fixed-answer rule is the first to fire, the reply is its fixed text |
| ChatRouting.BotGreeting | components/chat-interface.tsx:223 | when no rule fires, the reply is the greeting |
| LinkRewrite.Spaces | src/components/MessageBubble.tsx:23 | the leading `\s*` takes the longest run of white space |
| LinkRewrite.LinkTail | src/components/MessageBubble.tsx:23 | the tail `\s+\((https?://[^)]+)\)$` matches white space, then a parenthesised http or https URL without ')' that ends the line |
| LinkRewrite.LinkTailComplete | src/components/MessageBubble.tsx:23 | every white-space run followed by a parenthesised URL is recognised as a tail |
| LinkRewrite.FirstEnd | src/components/MessageBubble.tsx:23 | the lazy text ends at the first position after which the rest of the line is a tail |
| LinkRewrite.TryPlain | src/components/MessageBubble.tsx:23 | without a bullet, the matcher backs off the leading white space until the text can end somewhere: a match found is one without a bullet, and no match without a bullet starts later |
| LinkRewrite.TryBullet | src/components/MessageBubble.tsx:23 | with a bullet, the white space after it is given back one character at a time: a match found has the bullet followed only by white space, and no bulleted match from the same start has a longer bullet |
| LinkRewrite.FindMatch | src/components/MessageBubble.tsx:23-24 | a line matches exactly when a tail follows some non-empty text; the match found is the first in the matcher's order, with the longest leading white space and then the longest bullet |
| LinkRewrite.FindMatchFirst | src/components/MessageBubble.tsx:23-24 | a match tried no later than every other match is the one found |
| LinkRewrite.BulletKept | src/components/MessageBubble.tsx:23-25 | a line that can be matched with its bullet is matched with it, after all of the leading white space, so the rewrite starts with the bullet |
| LinkRewrite.BulletLine | src/components/MessageBubble.tsx:23-25 | "• a (http://x)" is matched with its bullet and becomes "• [a](http://x)" plus a newline |
| LinkRewrite.ProcessLineChanges | src/components/MessageBubble.tsx:23-26 | a line without line terminators is changed exactly when it ends in white space and a parenthesised http(s) URL after non-empty text |
| LinkRewrite.ProcessLineShape | src/components/MessageBubble.tsx:23-26 | a matched line becomes the bullet, then `[text](url)`, then a newline, from the first match in the matcher's order; the white space before the match start is dropped, and the URL starts with http:// or https:// and has no ')' |
| LinkRewrite.MatchShape | src/components/MessageBubble.tsx:23 | a match splits the line into leading white space, an optional bullet, non-empty text and the tail |
| LinkRewrite.TextEndsClean | src/components/MessageBubble.tsx:23 | because the text is as short as possible, it ends in white space only when it is one character long |
| LinkRewrite.SpaceText | src/components/MessageBubble.tsx:23-25 | a line of two spaces and `(http://x)` becomes `[ ](http://x)` plus a newline, with a single space as its text |
| LinkRewrite.BubbleText | src/components/MessageBubble.tsx:29 | a user's message is shown as typed; an assistant's is rewritten, and changes exactly when a tail follows some non-empty text |
| DayMarking.EventsOn | src/app/modal.tsx:92-106 | the events listed for a day are exactly those whose parsed interval holds it, each as often as in the list, in list order; an unparsable date excludes the event |
| DayMarking.PushDays | src/app/modal.tsx:64-86 | each day of the interval gets one more period, and no other day changes |
| DayMarking.MultiMarked | src/app/modal.tsx:42-90 | the markings exist exactly when every event's interval is valid; otherwise `eachDayOfInterval` throws |
| DayMarking.MarkFromSpec | src/app/modal.tsx:55-88 | the fold over the events appends to each day the periods of the later events covering it, in list order |
| DayMarking.PeriodsOnCount | src/app/modal.tsx:58-86 | a day receives exactly one period per event covering it |
| DayMarking.PeriodsOnFrom | src/app/modal.tsx:56-80 | each period of a day is that of a covering event, coloured by its index modulo ten, with white text, starting only on its start day and ending only on its end day |
| DayMarking.MultiMarkedDay | src/app/modal.tsx:42-90 | a day has an entry exactly when some event covers it; its periods follow the event list, one per covering event |
| DayMarking.MultiDisplay | src/app/modal.tsx:183-190 | the selected day keeps its periods, or gets an empty list, and becomes selected and untouchable; other days are unchanged |
| DayMarking.SelectedKeepsPeriods | src/app/modal.tsx:183-190 | the selected day shows one period per event covering it |
| DayMarking.OverwriteDays | app/modal.tsx:103-119 | each day of the interval keeps its other keys and takes the primary colour, white text and the start and end flags; the forcing for one-day intervals changes nothing |
| DayMarking.SingleMarked | app/modal.tsx:94-122 | the markings exist exactly when every event's interval is valid |
| DayMarking.LastCovering | app/modal.tsx:94-122 | the reference picks the last event in list order that covers the day |
| DayMarking.SingleFromSpec | app/modal.tsx:94-122 | after each event, every day holds the marking of the last event so far covering it, and uncovered days have no entry |
| DayMarking.SingleMarkedDay | app/modal.tsx:94-122 | a day has an entry exactly when some event covers it; the entry is the last covering event's marking, with `startingDay` on its start day and `endingDay` on its end day |
| DayMarking.SingleDisplay | app/modal.tsx:212-215 | the selected day keeps its marking's other keys, becomes selected and takes the secondary colour; other days are unchanged |
| NoticeRoute.CategoryTable | app/api/notice/route.ts:3-11 | exactly seven categories are accepted, each with its own endpoint |
| NoticeRoute.ApiUrl | app/api/notice/route.ts:21 | the upstream URL is the fixed base with the endpoint and "/search" |
| NoticeRoute.ApiUrlEndpoint | app/api/notice/route.ts:20-21 | the endpoint can be read back from the URL |
| NoticeRoute.ApiUrlInjective | app/api/notice/route.ts:20-21 | distinct endpoints give distinct URLs |
| NoticeRoute.PlanFor | app/api/notice/route.ts:14-21 | a missing or unknown category is rejected with 400 and "유효하지 않은 카테고리입니다."; a known one is forwarded to its endpoint's URL |
| NoticeRoute.Finish | app/api/notice/route.ts:23-34 | a failed call or an unreadable body gives 500; a non-ok answer passes its status with "서버 응답 오류"; otherwise the body is passed through with 200 |
| NoticeRoute.RejectIgnoresUpstream | app/api/notice/route.ts:16-18 | an invalid category is answered without any upstream call |
| NoticeRoute.ForwardUsesOwnUrl | app/api/notice/route.ts:20-34 | a valid category consults the upstream only at its own URL, and upstream data comes back only with status 200 |
| ChatSession.Pending | components/chat-interface.tsx:45-61 | a request appends the user's text and a loading placeholder, numbered after the list |
| ChatSession.Resolve | components/chat-interface.tsx:67-78 | every loading message takes the answer and stops loading; every other message is kept |
| ChatSession.ResolveSettled | components/chat-interface.tsx:67-78 | resolving a list with nothing loading changes nothing |
| ChatSession.ResolveIdempotent | components/chat-interface.tsx:67-78 | resolving twice is resolving once |
| ChatSession.ResolvePending | components/chat-interface.tsx:45-78 | on a list with nothing loading, answering a request turns its placeholder into the answer, keeps every other message, and keeps the ids counting up |
| ChatSession.Submit | components/chat-interface.tsx:42-52 | a blank-after-trim input changes nothing; otherwise the two messages are appended, the field is cleared and the raw input is sent |
| ChatSession.SendAppends | components/chat-interface.tsx:41-79 | a send appends exactly the user's message and the answered bot message, keeps earlier messages, leaves nothing loading and keeps the ids counting up |
| ChatSession.QuickReplyAppends | components/chat-interface.tsx:81-116 | a quick reply appends the same two messages without a blank check and leaves the field alone |
| EnhancedChat.ReplyText | components/enhanced-chat-interface.tsx:81-107 | the error text comes exactly from a failed call, a non-ok answer, an unreadable body, or an answer that itself reads as the error text; a falsy answer gives "응답이 없습니다."; a non-empty string answer is shown as it is |
| EnhancedChat.CurrentMessage | components/enhanced-chat-interface.tsx:72 | explicit content wins unless it is empty; otherwise the trimmed input is used |
| EnhancedChat.Submit | components/enhanced-chat-interface.tsx:72-79 | with nothing to send the state is unchanged; otherwise the user's message is appended, the field is cleared and loading starts |
| EnhancedChat.Complete | components/enhanced-chat-interface.tsx:96-110 | the reply appends one assistant message and loading ends |
| EnhancedChat.SubmitAppends | components/enhanced-chat-interface.tsx:70-111 | a submission only appends: nothing, or the user's message and one assistant message; the field ends empty and loading ends false |
| EnhancedChat.MenuClick | components/enhanced-chat-interface.tsx:117-123 | the three canteens submit "오늘 <menu>"; any other entry does nothing |
| EnhancedChat.ExportLines | components/enhanced-chat-interface.tsx:125-126 | each message exports as its speaker's name, a colon and its content |
| EnhancedChat.JoinSnoc | components/enhanced-chat-interface.tsx:127 | joining one more line adds a separator and the line |
| EnhancedChat.ExportAppend | components/enhanced-chat-interface.tsx:124-127 | the export of one message is its line, and each appended message adds a blank line and its line |
| EnhancedChat.ExportAfterSubmit | components/enhanced-chat-interface.tsx:70-127 | after a submission the export ends with the question and the answer, each after a blank line |
| ChatInput.HandleSendMessage | components/ChatInput.tsx:18-23 | a blank message is not sent and the field is kept; otherwise the trimmed text is sent once and the field is cleared |
| ChatInput.DisabledIffSilent | components/ChatInput.tsx:19-51 | the button is disabled exactly when pressing it would send nothing |
| ChatInput.SentIsTrimmed | components/ChatInput.tsx:19-21 | what is sent is not empty, is its own trim and holds only characters of the field; afterwards the field is empty, so a second press sends nothing |
| Carousel.JsRem | components/image-carousel.tsx:36-47 | JavaScript `%` is undefined for a zero divisor, keeps the sign of the dividend and has magnitude below the divisor |
| Carousel.Next | components/image-carousel.tsx:46-48 | from an index in range, next moves forward one and wraps from the last image to the first |
| Carousel.Previous | components/image-carousel.tsx:42-44 | from an index in range, previous moves back one and wraps from the first image to the last |
| Carousel.PreviousNext | components/image-carousel.tsx:42-48 | previous undoes next and next undoes previous |
| Carousel.AdvanceInRange | components/image-carousel.tsx:35-37 | any number of timer ticks keeps an in-range index in range, and moves it forward without wrap while there is room |
| Carousel.Render | components/image-carousel.tsx:54-105 | no images give the placeholder; arrows and indicators appear only with more than one image |
| Carousel.CountSingle | components/image-carousel.tsx:107-110 | an indicator row with only the current image marked has exactly one mark |
| Carousel.OneIndicator | components/image-carousel.tsx:50-110 | exactly one indicator is active, the current one, and clicking an indicator makes it active |
| Tutorial.Press | components/tutorial-overlay.tsx:60-119 | next advances or, on the last step, asks to close; previous steps back from a later step; close asks to close; a hidden overlay changes nothing |
| Tutorial.PressInRange | components/tutorial-overlay.tsx:58-119 | any press keeps the step in range, and closing never changes the step |
| Tutorial.RunInRange | components/tutorial-overlay.tsx:58-119 | any sequence of presses from step 0 keeps the step among the six steps |
| Tutorial.NextLabel | components/tutorial-overlay.tsx:63-122 | the button reads "완료" exactly on the last step and "다음" otherwise |
| Tutorial.Indicator | components/tutorial-overlay.tsx:80 | the indicator reads "단계 ", the step number counted from one, " / " and the number of steps, six |
| Tutorial.IndicatorInjective | components/tutorial-overlay.tsx:80 | distinct steps show distinct indicators |
| Tutorial.Dots | components/tutorial-overlay.tsx:129-135 | there is one dot per step, and only the current step's dot is highlighted |
| Tutorial.OneDot | components/tutorial-overlay.tsx:129-135 | the current dot is highlighted and every other one is not |
| ColorScheme.Step | hooks/use-color-scheme.ts:10-27 | a load gives the device scheme for 'system' and the stored scheme otherwise; a device change is followed only under 'system' |
| ColorScheme.RunResolves | hooks/use-color-scheme.ts:7-30 | under 'system' the scheme is the latest device scheme; under a fixed preference it is that preference once loaded, and the device scheme before |

## Left out

- Network, storage and clocks. The fetches become inputs: `Json.Fetch`, `EnhancedChat.ChatFetch`, and upstream functions from URL to outcome. Stored preferences are inputs too. `Date.now()` ids, `toLocaleTimeString` timestamps and `new Date()` for today are dropped.
- Rendering, styling and layout measurement, including the pixel positioning of calendar bars and the measured cell height.
- The `setInterval` scheduling of the carousel. Only its step is modelled (`Carousel.Advance`).
- Async races: overlapping requests and ids taken from a stale message count. `ChatSession` numbers messages by the list it is given.
- Time zones, daylight saving time and date parsing. Days are integer day numbers, and an unparsable date is `None`.
- Meal date parsing. The time of `new Date(mealDate ?? date ?? 0)` is the parameter `parse`, so invalid dates and `NaN` comparisons are not modelled.
- JavaScript prototype lookups. `categoryMap[category]` is truthy for an inherited key such as "toString", which `NoticeRoute.PlanFor` rejects: the table is modelled as an exact map.
- The outer `catch` of `getBotResponse`. Every call inside it already catches its own errors (`NoticeGateway.NoticeText` and `ChatRouting.LatestMenuText`), so its error text is unreachable and not modelled.
- The `menus.length === 0` reply of `getLatestMenu` is reachable only through the input `Result`: `NoticeGateway.MenuForCategory` never returns an empty list.
- The "메뉴 정보가 없습니다." fallback for a non-string menu is unreachable, because the filter keeps only string menus.
- `Json.Value` numbers are integers (`VNum`). Fractional numbers, `NaN` and `Infinity` are not modelled: the id test `typeof item.id === "number" && item.id <= 10` on 3.5, `NaN` or `-Infinity`, and the text such a number renders as, have no counterpart. Integers of magnitude 10^21 or more render in exponent form in JavaScript (`${1e21}` is "1e+21") but in plain decimal here (`Text.IntToString`, `Text.NatToString`), so such a title, date or time field reads differently in `NoticeGateway.TitleOf`, `NoticeGateway.NoticeText` and `NoticeGateway.MealOf`. Objects and arrays are one kind (`VObject`) that renders as "[object Object]", while a template literal comma-joins an array (`${["a","b"]}` is "a,b" and `${[]}` is ""), so an array-valued title, date or time reads differently in `NoticeGateway.NoticeText` and `NoticeGateway.MealOf`.
- `ChatRouting.BotMenu`: in the dormitory only the opening of the reply is promised. A dormitory block groups lines under the meal markers (`ChatRouting.GroupSections`), but its printed text has no line-by-line lemma, and `ChatRouting.DormTrimsLess` shows the reply is not "header and blocks less two newlines" there.
- `LinkRewrite.ProcessLine` works on one line without line terminators. The multi-line flag's `\s` and `[^)]` can cross lines; `LinkRewrite.BubbleText` requires a single line.
- `EnhancedChat.ReplyText`: a non-string truthy `answer` is shown through `Json.Render`. React would render numbers the same way, but it renders objects differently.
- `ColorScheme.RunResolves` takes the stored preference as fixed over the run. `loadColorScheme` itself is not part of this model.
- `Carousel.AdvanceInRange` assumes the image count stays fixed. An index left out of range by a shrinking image list is not modelled.
- `CalendarLayout.LayoutPieces` promises bars only for events ending inside the grid, because that is what the code as written does; see Findings.

## Findings

| source | as written | input that shows it | evidently intended | confidence | as-written member | corrected member |
|---|---|---|---|---|---|---|
| components/calendar-modal.tsx:259-289 | the grid end is `endOfWeek`, the end of the last Saturday; an event ending later is clipped to it, and `findIndex` looks for that instant among rows whose last entry is that Saturday at midnight. It finds none, `endWeekIndex` is -1, and the row loop never runs | January 2025, with an event from 6 January to 27 February 2025 and another from 6 to 10 January | the event is drawn in every row from its start to the end of the grid | not executed | CalendarLayout.ClippedEventVanishes, CalendarLayout.January2025 | CalendarLayout.LayoutClipped, CalendarLayout.EventSegmentsCover |
