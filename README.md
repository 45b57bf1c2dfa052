# BreakingNews entity

A Dafny model of the `BreakingNews` entity of a small Flask/SQLAlchemy application.
Each `BreakingNews` object is one row of the `breakingnews` table. It has a primary key `id`, a
`title`, a `network` (the outlet, such as "CNN" or "Fox") and a `day`. The class offers a
getter and a setter for each field, an exact-match test `is_network`, a `day` getter that
formats the date as `MM-DD-YYYY`, a derived `age` in whole years, a dictionary snapshot `read`,
and a partial `update` that overwrites only the fields given non-empty arguments.

The model has three files:

- `wrappers.dfy`: `Option`, which stands for Python's `None` versus a present value.
- `dates.dfy` (module `Dates`): the calendar date type, the `age` arithmetic, and the
  `%m-%d-%Y` formatting. `ParseDay` reads a formatted date back. It is not in the program. It is
  the inverse used to prove that the formatted string determines the date.
- `breakingnews.dfy` (module `News`): the record value `Record`, the state change `ApplyUpdate`
  that `update` performs, and the class `BreakingNews`. The class's fields are updated in place
  by the setters and by `Update`.

The clock is a parameter. `age` calls `date.today()`, so the model's `Age` and `Read` take
`today` as an argument. The constructor's default `day=date.today()` is evaluated once, when the
module loads. The model's constructor takes `day` explicitly instead.

A `Date` is a year, month and day that names a real day of the proleptic Gregorian calendar,
with the year in 1..9999. These are the values Python's `datetime.date` admits.

## Model

| member | source | states |
|---|---|---|
| `Dates.Age` | model/breakingnews.py:69-72 | The `age` formula of line 72, with `today` as a parameter. The result is the year difference or one less. |
| `Dates.AgeCountsAnniversaries` | model/breakingnews.py:69-72 | The `n`-th anniversary of `day` is on or before `today` if and only if `n <= age`: the age counts the whole years elapsed. |
| `Dates.AgeIsGreatestAnniversary` | model/breakingnews.py:69-72 | The age-th anniversary has been reached and the next one has not. |
| `Dates.AgeYearDifference` | model/breakingnews.py:72 | The age is `today.year - day.year`, or one less exactly when `(today.month, today.day)` is lexicographically before `(day.month, day.day)`. |
| `Dates.AgeNonNegative` | model/breakingnews.py:72 | A day on or before `today` has age at least 0. |
| `Dates.AgeNegativeInFuture` | model/breakingnews.py:72 | A day after `today` has a negative age. The code does not reject such days. |
| `Dates.AgeOnAnniversary` | model/breakingnews.py:72 | When month and day are equal, the age is exactly the year difference. |
| `Dates.AgeMonotone` | model/breakingnews.py:69-72 | The age never decreases as `today` moves later. |
| `Dates.AgeExample` | model/breakingnews.py:72 | Day 2000-03-01 seen on 2023-02-15 has age 22, not 23. |
| `Dates.DaysInMonth` | model/breakingnews.py:26 | Months have 28 to 31 days. A month has 29 days exactly when it is February of a Gregorian leap year. This is the validity rule of a stored `date`. |
| `Dates.ZeroPad` | model/breakingnews.py:61 | The decimal form of `n`, zero-padded to the field width. The result has exactly `width` characters, all of them digits. |
| `Dates.DigitsValueOfZeroPad` | model/breakingnews.py:61 | Reading a padded field back as a number gives the original number. |
| `Dates.ZeroPadOfDigitsValue` | model/breakingnews.py:61 | Padding the value of a digit string to its own length gives back the same string. |
| `Dates.FormatDay` | model/breakingnews.py:59-62 | `strftime('%m-%d-%Y')` gives 10 characters, with dashes at positions 2 and 5 and digits everywhere else. |
| `Dates.FormatDayPieces` | model/breakingnews.py:61 | Characters 0-1 are the two-digit month, 3-4 the two-digit day and 6-9 the four-digit year. |
| `Dates.ParseDay` | model/breakingnews.py:59-62 | Inverse of the format. It yields a date only for strings with the `MM-DD-YYYY` shape. |
| `Dates.ParseFormatDay` | model/breakingnews.py:59-62 | Parsing the formatted day gives back the stored date, so the string loses nothing. |
| `Dates.FormatParseDay` | model/breakingnews.py:59-62 | Every accepted string is exactly the formatted form of the date it names. |
| `Dates.FormatDayInjective` | model/breakingnews.py:59-62 | Distinct dates format to distinct strings. |
| `Dates.FormatDayExample` | model/breakingnews.py:129 | The seed date 2023-01-21 formats as `01-21-2023`. |
| `News.ApplyUpdate` | model/breakingnews.py:104-111 | The field change of lines 106-109. `id` and `day` never change. Each of `title` and `network` ends up as either its argument or its old value. |
| `News.UpdateTitle` | model/breakingnews.py:104-107 | A non-empty `title` argument becomes the title. An empty one leaves the title unchanged. |
| `News.UpdateNetwork` | model/breakingnews.py:104-109 | A non-empty `network` argument becomes the network. An empty one leaves the network unchanged. |
| `News.UpdateIdempotent` | model/breakingnews.py:104-111 | Applying the same arguments twice gives the same state as applying them once. |
| `News.UpdateDefaultsChangeNothing` | model/breakingnews.py:104 | `update()` with its default empty arguments leaves the record unchanged. |
| `News.UpdateLaterWins` | model/breakingnews.py:104-109 | With two updates in a row, each field takes the later non-empty argument, else the earlier one, else keeps its old value. |
| `News.BreakingNews.State` | model/breakingnews.py:19-32 | The abstract record holds exactly the object's `id`, `title`, `network` and `day` fields. Every state-changing contract is stated in terms of it. |
| `News.BreakingNews.constructor` | model/breakingnews.py:29-32 | A new item holds the given title, network and day, and no key yet. |
| `News.BreakingNews.SetTitle` | model/breakingnews.py:40-42 | The title setter replaces the title and nothing else. |
| `News.BreakingNews.SetNetwork` | model/breakingnews.py:50-52 | The network setter replaces the network and nothing else. |
| `News.BreakingNews.SetDay` | model/breakingnews.py:65-67 | The day setter replaces the stored date and nothing else. |
| `News.BreakingNews.DayString` | model/breakingnews.py:59-62 | The `day` getter gives a 10-character `MM-DD-YYYY` string that parses back to the stored date. |
| `News.BreakingNews.Age` | model/breakingnews.py:69-72 | The `age` property on a given `today` counts exactly the anniversaries of `day` that have been reached. |
| `News.BreakingNews.Read` | model/breakingnews.py:93-100 | `read()` has exactly the keys `id`, `title`, `network`, `day` and `age`, each holding the matching getter's value. |
| `News.BreakingNews.Update` | model/breakingnews.py:104-111 | Returns the object itself. Its new state is `ApplyUpdate` of the old state: each non-empty argument overwrites its field, and everything else stays. |
| `News.BreakingNews.IsNetwork` | model/breakingnews.py:55-56 | `is_network(n)` holds if and only if the stored network and `n` have the same length and the same characters at every position. |
| `News.IsNetworkCaseSensitive` | model/breakingnews.py:55-56 | An item from "Fox" matches "Fox" but not "fox" or "FOX". |
| `News.ReadDeterminesState` | model/breakingnews.py:93-100 | On the same `today`, two items with equal `read()` dictionaries have equal state. |
| `News.UpdateNetworkOnly` | model/breakingnews.py:93-111 | After `update("", network)`, `read()` equals the earlier snapshot with only `network` replaced. The title is unchanged. |

## Left out

- `create` (model/breakingnews.py:81-89): it calls the ORM session (`add`, `commit`, `remove`), and the `IntegrityError` path belongs to the database library. So the model never assigns `id`. It stays whatever the storage layer set, and `None` for a new object.
- `delete` (model/breakingnews.py:115-118): its only effect is a session delete and a commit.
- `Update`: the `db.session.commit()` at line 110 is not modelled. The method models only the in-memory field changes.
- `initBreakingNews` (model/breakingnews.py:125-151): it creates tables, seeds fixtures and prints. Its reference to the non-existent `news.uid` at line 151 is outside the core.
- `__str__` (model/breakingnews.py:76-77): `json.dumps` serialisation comes from a foreign library.
- `date.today()` (model/breakingnews.py:29, 71): this is the ambient clock. Dates are passed as parameters instead.
- Column annotations (model/breakingnews.py:23-26) are not modelled. `nullable=False` becomes a `NOT NULL` constraint in the table that `db.create_all()` (line 127) creates, and the database checks it at commit. `String(255)` is declared, but SQLite does not enforce the length. This code checks neither constraint. The model's strings are unbounded and may be empty.
- `Dates.FormatDay`: the year is always zero-padded to four digits, as current CPython's `%Y` does. Older Python builds on glibc print years below 1000 without padding. The model does not reproduce that platform variation.
- Python's dynamic typing is not modelled. The constructor (model/breakingnews.py:32) stores any value as the day without checking it, and so does the `day` setter (line 67). A value that is not a date fails only later, with an `AttributeError`. That happens in the `day` getter (line 61), in `age` (line 72), and so in `read()`. A `datetime` never fails, because it is read like its date. `update` compares only lengths (lines 106 and 108). So a non-string argument that has a length, such as a list, is stored, and the failure comes only at the commit.
- `Dates.Date`: this type excludes a `None` day. The constructor and the nullable `_day` column (model/breakingnews.py:26) both allow one. With a `None` day, the `day` getter, `age` and `read()` raise `AttributeError`. The model has no such failure path, so `DayString`, `Age` and `Read` are total.
