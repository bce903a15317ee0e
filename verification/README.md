# AirBnB clone v2: deployment scripts and Flask text routes in Dafny

This project models the few decision rules in the AirBnB clone that can be stated exactly:

- the Fabric deployment scripts:
  - `do_pack` names a timestamped archive;
  - `do_deploy` derives a release directory from the archive path, then issues eight remote steps and stops at the first failure;
  - `deploy` chains the two;
  - `do_clean` keeps `max(number, 1)` entries of each `ls -tr` listing and removes the rest. As written, its local listing is always empty (see Findings);
- the text routes of the `web_flask` applications: the constant pages, underscore-to-space text pages, the integer-or-404 number page and the odd/even label.

Every side effect becomes an input:

- whether the archive exists (a `bool`);
- the success of each step (a `seq<bool>`, one entry per step);
- the directory listings (a `seq<string>`, one name per entry, oldest first, as `ls -1tr` prints them; see Left out for what Fabric's `run` actually receives). Only the remote one reaches `do_clean` as written, because the local `ls` output is not captured;
- the moment `datetime.now()` returns (a `DateTime`).

Each operation is a pure function. It returns the commands that would be issued, in order, and the value the Python function returns.

Modules:

- `Wrappers`: `Option`, which stands for Python's `None`.
- `Decimal`: `str(int)` and a restricted `int(str)`.
- `Paths`: `os.path.basename` and `os.path.splitext`.
- `Clock`: `strftime("%Y%m%d%H%M%S")`.
- `Commands`: the command datatype and the stop-at-first-failure runner.
- `Pack`: `do_pack`. It is identical in 1-pack_web_static.py and 3-deploy_web_static.py.
- `Distribute`: `do_deploy`. 3-deploy_web_static.py is the intended version. The as-written version of 2-do_deploy_web_static.py is `DoDeployV2`.
- `Pipeline`: `deploy`.
- `Clean`: `do_clean`.
- `Routes`: the four Flask application files. They share their handlers. `Serve` gives each file's set of routes.

## Model

| member | source | states |
|---|---|---|
| Decimal.NatToDecimal | web_flask/6-number_odd_or_even.py:43 | `str(n)` of a non-negative int is non-empty and all digits. It has no leading zero except for "0" itself. Its digits read back as n. |
| Decimal.IntToDecimal | web_flask/4-number_route.py:43 | `str(i)` is the decimal of i for i >= 0, and '-' followed by the decimal of -i for i < 0. |
| Decimal.ParseInt | web_flask/6-number_odd_or_even.py:41-42 | `int(s)` succeeds exactly on a non-empty string whose characters are all digits, except that a leading sign may precede at least one digit. On success the value is the digits' decimal value, negated after a leading '-'. |
| Decimal.ParseIntOfSpelling | web_flask/4-number_route.py:42 | An optional sign, any number of zeros, then the decimal of n parses as n, or as -n after '-'. |
| Decimal.ParseIntOfDecimal | web_flask/6-number_odd_or_even.py:42-43 | `int(str(i)) == i` for every integer, negative ones included. |
| Decimal.ParseIntIgnoresLeadingZeros | web_flask/4-number_route.py:42 | Any number of leading zeros before a decimal leaves the parsed value unchanged. |
| Paths.Basename | 3-deploy_web_static.py:34 | `os.path.basename` is the longest suffix of the path with no '/'. When it is shorter than the path, a '/' stands right before it. |
| Paths.BasenameOfJoin | 2-do_deploy_web_static.py:19 | The basename of `dir/name` is `name` whenever `name` has no '/'. |
| Paths.Splitext | 3-deploy_web_static.py:35 | `root + ext` is the path. `ext` is empty or a single '.' followed by neither '.' nor '/'. A non-empty `ext` has a non-dot character before it in the last component. An empty `ext` means everything in the last component before its last '.' is a dot. |
| Paths.SplitextOfRootAndExtension | 3-deploy_web_static.py:35 | A root with some non-dot character, followed by one extension, splits back into exactly that root and extension. |
| Paths.SplitextLeadingDots | 2-do_deploy_web_static.py:20 | Leading dots do not start an extension: one or more dots followed by a tail with no '.' (".bashrc", "..bashrc") keeps the whole name as the root. |
| Clock.Pad2 | 1-pack_web_static.py:11 | The two-digit fields (%m %d %H %M %S) are exactly two digits and read back as the field's value. |
| Clock.Timestamp | 1-pack_web_static.py:11 | The date string is all digits, ten more than the digits of the year. |
| Clock.TimestampRoundTrip | 1-pack_web_static.py:11 | For years 1000-9999 the date string is exactly 14 digits. Reading the fields back gives the same moment. |
| Commands.RunSteps | 3-deploy_web_static.py:30-60 | Steps are issued in order. Everything before the last issued step succeeded. On False the last issued step is the failing one. True exactly when every step succeeded, and then all steps were issued. |
| Commands.IssuedIffEarlierSucceeded | 3-deploy_web_static.py:31-58 | Step i is issued if and only if every earlier step succeeded. |
| Commands.StopsAtFirstFailure | 2-do_deploy_web_static.py:16-43 | When step k is the first failure, exactly steps 0..k are issued and the result is False. |
| Pack.DoPack | 1-pack_web_static.py:7-18 | `mkdir -p versions` is issued, then `tar -cvzf versions/web_static_<date>.tgz web_static`. The archive path is returned exactly when tar succeeded, otherwise None. |
| Pack.ReturnedArchiveIsTarOutput | 3-deploy_web_static.py:13-19 | The returned path is the file the tar command wrote, inside the directory the preceding mkdir created. |
| Pack.ArchivePathLayout | 1-pack_web_static.py:11-12 | For years 1000-9999 the archive path is 38 characters: "versions/web_static_", 14 digits that decode to the packing moment, then ".tgz". |
| Pack.ArchivePathInjective | 3-deploy_web_static.py:14-15 | Two different moments (years 1000-9999) never produce the same archive path. |
| Distribute.Steps | 3-deploy_web_static.py:30-58 | The eight steps, each pinned: upload the archive to /tmp/; `mkdir -p` of the given directory; `tar -xzf` of the upload into the release directory; `rm` of the upload; `mv` of web_static/* up into the release directory; `rm -rf` of the emptied web_static; `rm -rf` of `current`; `ln -s` of the release directory as `current`. Every step after the upload is a remote shell line. |
| Distribute.StepsDifferOnlyInMkdir | 2-do_deploy_web_static.py:23 | Only the `mkdir -p` step depends on the directory it is given. Two step lists are equal exactly when the directories are. |
| Distribute.DeploySteps | 3-deploy_web_static.py:38 | In 3-deploy_web_static.py mkdir creates the release path. Every other step equals the step 2-do_deploy_web_static.py issues at the same position. |
| Distribute.DeployStepsV2 | 2-do_deploy_web_static.py:23-26 | In 2-do_deploy_web_static.py mkdir creates the release path followed by the release name, while tar still extracts into the release path. |
| Distribute.Attempt | 3-deploy_web_static.py:27-33 | A missing archive gives False and issues no command. Otherwise the steps run up to and including the first failure. True exactly when the archive exists and all steps succeed. |
| Distribute.DoDeploy | 3-deploy_web_static.py:24-60 | `do_deploy` issues a prefix of the fixed eight steps: put, mkdir, tar -C, rm /tmp, mv, rm web_static, rm current, ln -s. It returns True if and only if the archive exists and all eight succeed. On True every step was issued. |
| Distribute.DoDeployV2 | 2-do_deploy_web_static.py:9-45 | The same guarantees for 2-do_deploy_web_static.py with its own step list. |
| Distribute.DeployStopsAtFirstFailure | 3-deploy_web_static.py:32-58 | At the first failed step, both versions return False having issued that step and nothing later. |
| Distribute.LinkOnlyAfterCurrentRemoved | 3-deploy_web_static.py:53-58 | The `ln -s` step is issued only after `rm -rf /data/web_static/current` was issued and succeeded. The link points `current` at the release path plus '/'. |
| Distribute.LinkOnlyAfterCurrentRemovedV2 | 2-do_deploy_web_static.py:38-43 | The same ordering and link target hold in 2-do_deploy_web_static.py. |
| Distribute.MkdirCreatesTarDirectory | 3-deploy_web_static.py:38-41 | The directory made by `mkdir -p` is the `tar -C` directory without its trailing '/'. |
| Distribute.MkdirMissesTarDirectoryV2 | 2-do_deploy_web_static.py:23-26 | As written, mkdir creates the release path followed by the release name a second time. For any non-empty release name this is not the `tar -C` directory. |
| Distribute.ReleasePathOfArchive | 2-do_deploy_web_static.py:19-21 | For `<dir>/<root><ext>` the uploaded name is `<root><ext>` and the release path is /data/web_static/releases/<root>. |
| Pipeline.Deploy | 3-deploy_web_static.py:63-71 | When tar fails, `deploy` returns False after only do_pack's commands. Otherwise it issues do_pack's commands then do_deploy's for the packed archive, and returns exactly do_deploy's result. |
| Pipeline.PackedArchiveRelease | 3-deploy_web_static.py:34-36 | The packed archive is uploaded as web_static_<date>.tgz. It is installed under /data/web_static/releases/web_static_<date>. |
| Pipeline.DeployLinksTimestampedRelease | 3-deploy_web_static.py:66-69 | When every step succeeds, `deploy` returns True. Its tenth command links `current` to the release named after the packing time. |
| Clean.KeepCount | 100-clean_web_static.py:18 | The keep count is `max(number, 1)`: at least 1, at least number, and equal to one of them. |
| Clean.DropFirst | 100-clean_web_static.py:19 | `listing[keep:]` is the suffix of length `len - keep`, or empty when the listing is no longer than keep. |
| Clean.CleanCommands | 100-clean_web_static.py:13-29 | Order of commands: the remote `ls -tr` in the releases directory, one remote `rm -rf` per stale release, the local `ls -tr versions/`, one local `rm -fr` per stale archive. Within each group the order is that of the listing. |
| Clean.DoClean | 100-clean_web_static.py:7-29 | The remote `ls -tr` comes first and the local `ls -tr versions/` right after the remote removals. The same keep count applies to both listings. Every entry at a position from the keep count on gets its own removal command, in listing order, and nothing else is removed. |
| Clean.DoCleanAsWritten | 100-clean_web_static.py:25-29 | With the uncaptured local listing: only the remote removals and the two listings are issued. The local `ls` is the last command and the only local one. |
| Clean.AsWrittenIsRemoteHalf | 100-clean_web_static.py:25-29 | Whatever the versions directory holds, the as-written commands are exactly the prefix of `DoClean`'s that ends with the local `ls`. |
| Clean.AsWrittenSkipsLocalRemovals | 100-clean_web_static.py:25-29 | None of the local removals `DoClean` issues appears among the as-written commands. |
| Clean.UncapturedLocalListingKeepsArchives | 100-clean_web_static.py:25-27 | With local archives [web_static_1.tgz, web_static_2.tgz] and number 1, `DoClean` removes web_static_2.tgz locally. The as-written clean issues only the two listings. |
| Clean.KeptThenDropped | 100-clean_web_static.py:19 | The kept prefix followed by the deleted entries is exactly the listing. The kept part has `min(keep, len)` entries. |
| Clean.RetentionBounds | 100-clean_web_static.py:18-19 | A listing no longer than the keep count loses nothing. A non-empty listing keeps at least its first entry. |
| Clean.SmallNumbersKeepOne | 100-clean_web_static.py:18 | number 0, 1 and any negative number give identical commands. |
| Clean.KeepsOldest | 100-clean_web_static.py:16-19 | Entries are kept from the front of the oldest-first listing. The oldest is never removed, and whenever anything is removed the newest is among it. |
| Clean.OldestFirstRemovesNewest | 100-clean_web_static.py:16-22 | On the listing [web_static_1, web_static_2] with number 1, the one release removed is web_static_2, the newest. |
| Clean.DropAllButLast | 100-clean_web_static.py:8-9 | The retention the docstring describes: the stale entries are the front of the listing, all but the last keep. |
| Clean.DoCleanKeepingNewest | 100-clean_web_static.py:8-29 | do_clean with the docstring's retention: the remote `ls -tr` comes first and the local one right after the remote removals. The first `len - keep` entries of each listing get removal commands, in order. |
| Clean.KeepingNewestKeepsNewest | 100-clean_web_static.py:8-9 | Under that retention the removed entries followed by the last keep entries are the listing. A non-empty listing keeps its newest entry. |
| Clean.KeepingNewestRemovesOldest | 100-clean_web_static.py:8-9 | On [web_static_1, web_static_2] with number 1, that retention removes web_static_1. |
| Routes.Hello | web_flask/2-c_route.py:9-12 | "/" answers the text "Hello HBNB!". |
| Routes.Hbnb | web_flask/2-c_route.py:15-18 | "/hbnb" answers the text "HBNB". |
| Routes.ReplaceUnderscores | web_flask/2-c_route.py:24 | `text.replace('_', ' ')` keeps the length. Each '_' becomes ' ' and every other character stays at its offset. |
| Routes.NoUnderscoreLeft | web_flask/3-python_route.py:24 | No '_' remains after the replacement. |
| Routes.ReplaceIdempotent | web_flask/6-number_odd_or_even.py:24 | Replacing twice equals replacing once. |
| Routes.ReplaceKeepsPlainText | web_flask/4-number_route.py:33 | A text without '_' is unchanged by the replacement. |
| Routes.CText | web_flask/3-python_route.py:21-25 | `c_text` starts with "C ", has length len(text)+2 and contains no '_'. Position i+2 holds ' ' where the text has '_', and the text's own character everywhere else. |
| Routes.PyText | web_flask/4-number_route.py:28-34 | `py_text` starts with "Python ", has length len(text)+7 and contains no '_'. Position i+7 holds ' ' where the text has '_', and the text's own character everywhere else. |
| Routes.PythonDefaultIsCool | web_flask/3-python_route.py:28 | The default text gives "Python is cool". |
| Routes.Number | web_flask/4-number_route.py:37-45 | `number` answers text exactly when the argument parses as an integer, and 404 otherwise. The text is `str` of the parsed value followed by " is a number". |
| Routes.NumberOfSpelling | web_flask/4-number_route.py:42-43 | An optional sign, any zeros, then the decimal of n is answered with that decimal followed by " is a number", with '-' in front exactly when the sign is '-' and n > 0. |
| Routes.NumberPlusSign | web_flask/4-number_route.py:42-43 | "+7" gives "7 is a number". |
| Routes.NumberNegativePadded | web_flask/4-number_route.py:42-43 | "-007" gives "-7 is a number". |
| Routes.NumberNegativeZero | web_flask/4-number_route.py:42-43 | "-0" gives "0 is a number". |
| Routes.NumberEchoesCanonically | web_flask/6-number_odd_or_even.py:41-45 | An integer's own spelling, or a zero-padded spelling, is answered with the canonical decimal followed by " is a number". |
| Routes.NumberDropsLeadingZeros | web_flask/4-number_route.py:42-43 | "007" gives "7 is a number". |
| Routes.ParityLabel | web_flask/6-number_odd_or_even.py:58-61 | The label is "even" or "odd". It is "even" if and only if n % 2 == 0. |
| Routes.ParityLabelPeriod | web_flask/6-number_odd_or_even.py:58-61 | n and n+2 get the same label. n and n+1 get different labels. |
| Routes.NumberTemplate | web_flask/6-number_odd_or_even.py:48-52 | `number_temp` renders 5-number.html with the number and no parity. |
| Routes.NumberOddOrEven | web_flask/6-number_odd_or_even.py:55-63 | `number_odd_or_even` renders 6-number_odd_or_even.html with the number. Its label is "even" exactly for even n and "odd" exactly for odd n. |
| Routes.Serve | web_flask/6-number_odd_or_even.py:9-63 | A request whose route first appears in a later file is 404. A request whose route the file has is answered, and a number request is 404 exactly when its argument is not an integer. |
| Routes.LaterFilesExtendEarlier | web_flask/4-number_route.py:9-45 | A route served by an earlier application file is served identically by every later one. |
| Routes.CRouteFile | web_flask/2-c_route.py:9-25 | 2-c_route.py serves "/", "/hbnb" and "/c/<text>". Every other route is 404. |
| Routes.PythonRouteFile | web_flask/3-python_route.py:28-34 | 3-python_route.py serves "/python/" as "Python is cool" and "/python/<text>" with underscores replaced. It has no number route. |
| Routes.NumberRouteFile | web_flask/4-number_route.py:37-45 | 4-number_route.py serves "/number/<n>" through `number`, which is 404 exactly for non-integers. It has no odd/even page. |
| Routes.OddOrEvenFile | web_flask/6-number_odd_or_even.py:48-63 | 6-number_odd_or_even.py renders both template pages with the number and, for the odd/even page, the parity label. |

The handlers `hello`, `hbnb`, `c_text`, `py_text` and `number` are written out again in each web_flask file. Those copies are character-for-character identical, so one Dafny member models all of them:

- `hello`: 2-c_route.py:9-12, 3-python_route.py:9-12, 4-number_route.py:9-12 and 6-number_odd_or_even.py:9-12;
- `hbnb`: lines 15-18 of the same four files;
- `c_text`: lines 21-25 of the same four files;
- `py_text`: lines 28-34 of 3-python_route.py, 4-number_route.py and 6-number_odd_or_even.py;
- `number`: lines 37-45 of 4-number_route.py and 6-number_odd_or_even.py.

## Left out

- Fabric itself is not modelled: `put`, `run`, `local`, `cd`, `hide` and `warn_only`. Each command is a `Command` value, and its success is an input.
- `cd(...)` is kept only as the directory of the `RunIn` command. `hide(...)` changes only what is printed.
- Fabric runs each fab command once per host in `env.hosts`, so `deploy` packs once per host. The model describes one run against one host.
- Pack.DoPack: outside `warn_only`, Fabric aborts the whole fab run when a `local` command fails. So with default settings the `None` branch is never reached, and a failed `mkdir -p versions` also aborts. The model follows the Python code's own branches: the mkdir outcome is ignored, and `None` is returned when tar fails.
- Clean.DoClean: takes the local listing as an input, as if `local` captured the output of `ls -tr versions/`. The source does not capture it (see Findings), which `Clean.DoCleanAsWritten` models.
- Clean.DoCleanAsWritten: the remote listing is an input. An `ls` or `rm` that fails aborts the real fab run, and the model does not include that abort.
- Clean.DoClean: the remote listing stands for one release name per line, as `ls -1tr` or a `run` without a pseudo-terminal prints it. Fabric's `run` allocates a pseudo-terminal by default, and GNU `ls` writing to a terminal prints several names per line in columns. So `run('ls -tr').splitlines()` yields rows of names, and each "entry" the script keeps or removes is a whole row. The model's functions are stated for any list of lines, but its one-name-per-line reading of them is not what that default produces.
- Clean.DoCleanAsWritten: the same one-name-per-line reading of the remote listing applies; under the default pseudo-terminal the remote removals act on rows of names.
- `os.path.exists` and `datetime.now()` are inputs. For years below 1000, `%Y` is written without padding, as the C library does. Some Python versions pad it to four digits instead. Only years 1000-9999 carry the 14-digit guarantee.
- Decimal.ParseInt: accepts only an optional sign followed by ASCII digits. Python's `int` also allows surrounding whitespace, `_` between digits and non-ASCII digits. For those inputs the model answers 404 where the application answers a number.
- Decimal.ParseInt: no length limit. CPython 3.11 and later (and security releases of earlier versions) refuse to convert a decimal string longer than 4300 digits. The model parses any length.
- Routes.Number: inherits the ParseInt restrictions above. For an argument longer than 4300 digits, such a Python answers 404 where the model answers text.
- The Flask layer is not modelled: the app object, URL matching, `strict_slashes`, the `<text>` and `<int:n>` converters, `abort` and the Jinja templates. A `Request` is a request already matched to a handler. A `Rendered` response records the template name and its variables.
- `do_clean` called with a string `number` from the fab command line raises a TypeError in `max`. `number` is an `int` here.
- web_flask/7-states_list.py, web_flask/9-states.py and web_flask/100-hbnb.py are not part of this model. They read `models.storage`, which is not part of this model either, and their only logic is a sort.
- models/amenity.py is an ORM declaration with no behaviour. The tests exercise storage and base-model code that is not part of this model.
- `Paths` follows POSIX `posixpath` only: '/' is the separator, and there is no alternative separator.

## Findings

| source | as written | input that shows it | evidently intended | confidence | as-written member | corrected member |
|---|---|---|---|---|---|---|
| 2-do_deploy_web_static.py:23 | `mkdir -p {release_path}{dirN}` creates `/data/web_static/releases/<name><name>`. `tar -C` at line 26 then extracts into `/data/web_static/releases/<name>/`, which mkdir did not create. | archive `versions/web_static_20240101120000.tgz`: mkdir makes `.../web_static_20240101120000web_static_20240101120000` | `mkdir -p {release_path}`, as 3-deploy_web_static.py:38 writes it | not executed; high | Distribute.MkdirMissesTarDirectoryV2 | Distribute.MkdirCreatesTarDirectory |
| 100-clean_web_static.py:25 | `local('ls -tr versions/')` is called without `capture=True`. Fabric's `local` then returns the empty string, so `local_dirs` is empty and no local archive is ever removed | versions/ holds web_static_1.tgz and web_static_2.tgz, number 1: web_static_2.tgz stays | `local('ls -tr versions/', capture=True)` | not executed; high | Clean.UncapturedLocalListingKeepsArchives | Clean.DoClean |
| 100-clean_web_static.py:16-19 | keeps the first `max(number, 1)` entries of `ls -tr`, which lists oldest first, so the oldest archives are kept | listing [web_static_1, web_static_2] (oldest first, one name per line as `ls -1tr` prints it), number 1: web_static_2, the newest, is removed. Under Fabric's default pseudo-terminal both names share one column row, `ws_dirs` has one element and nothing is removed | keep the most recent archives, as the docstring at line 9 says | not executed; low | Clean.OldestFirstRemovesNewest | Clean.KeepingNewestKeepsNewest |

How each finding is handled in the model:

- `Pipeline.Deploy` uses `Distribute.DoDeploy`, the 3-deploy_web_static.py version. `Distribute.DoDeployV2` keeps 2-do_deploy_web_static.py as written.
- `Clean.DoClean` models `do_clean` with the local listing captured. `Clean.DoCleanAsWritten` is the uncaptured version, and `Clean.AsWrittenIsRemoteHalf` and `Clean.AsWrittenSkipsLocalRemovals` show it never removes a local archive.
- `Clean.DoClean` keeps the oldest entries, as written. `Clean.DoCleanKeepingNewest` is the retention the docstring describes, and `Clean.KeepingNewestRemovesOldest` shows it on the same listing.
