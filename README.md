# Doce Setup in Dafny

A model of `docesetup.py`, the interactive post-install script for Linux
servers (class `LinuxSetup`). It covers:

- what the script detects about the machine: the distribution, the package
  manager and the SSH port;
- its two console prompts: yes/no questions and numbered choices;
- the configuration-line upsert `_update_config`, behind every SSH setting
  the script writes;
- the seven menu actions: root SSH access and passwords, the SSH keep-alive,
  a swap file and its `/etc/fstab` entry, 32-bit support, an SSL certificate,
  disabling services, and the system language;
- the main menu loop of `run`.

The world is a value. Files are a map from path to the text Python reads in
text mode. Shell commands are appended, in order, to a list, and their
effects are not modelled. The lines the user types are a sequence. Running
out of them is the end of input, where `input()` raises `EOFError`.
Everything external the script asks about is a parameter:

- the binaries `shutil.which` finds;
- the output of `swapon --show` and `lsb_release`;
- the `platform` values;
- the accounts of `pwd.getpwall()`;
- the IP texts `ipaddress` accepts.

Modules, one file each:

| module | models |
|---|---|
| `Text` | the Python string primitives the script uses |
| `Prompts` | `_ask`, `_select_option`, `int()` and `input()` |
| `Distro` | `_detect_distro` |
| `PackageManager` | `_setup_package_manager` |
| `SshPort` | `_detect_ssh_port` |
| `ConfigEditor` | `_update_config`, plus the corrected line-wise upsert |
| `Fstab` | the `/etc/fstab` update of `create_swap` |
| `Locale` | the language table and the `/etc/locale.gen` uncommenting of `change_locale` |
| `Services` | the two loops of `disable_services` |
| `Actions` | the seven menu actions |
| `Menu` | `_install_deps` and `run` |

Methods carry the loops the source has:

- the `os-release` parse;
- the `sshd_config` scan;
- the re-prompting loops;
- the locale lookup;
- the password loop;
- the service loops;
- `_install_deps`;
- the menu loop.

Each method is proved equal to a function, and the properties are proved about
that function.

`ConfigEditor.UpdateConfig` models `_update_config` as written, including the
two defects listed under "## Findings". The SSH actions write their settings
with the corrected upsert `ConfigEditor.UpdateFile`. That upsert rewrites
exactly the lines that carry the directive: `[#\s]*param`, followed by
whitespace or the end of the line.

## Model

| member | source | states |
|---|---|---|
| Text.IsSpace | docesetup.py:61 | definition of `isspace()`, `\s` and the whitespace of `strip()` and `split()` on Latin-1: `\t` to `\r`, U+001C to U+0020, U+0085 and U+00A0 |
| Text.IsDigit | docesetup.py:474 | definition of `isdigit()` on Latin-1: the ASCII digits and the superscripts one, two and three |
| Text.Lower | docesetup.py:64 | `lower()` keeps the length and lowers each capital (A-Z and the Latin-1 capitals) |
| Text.LowerLeavesNoCapital | docesetup.py:64 | no capital is left in a lowered text |
| Text.LowerIdempotent | docesetup.py:64 | lowering a lowered text changes nothing |
| Text.TrimStart | docesetup.py:61 | the result is a suffix of the input, starts with no whitespace, and only whitespace was dropped |
| Text.TrimEnd | docesetup.py:61 | the result is a prefix of the input, ends with no whitespace, and only whitespace was dropped |
| Text.Strip | docesetup.py:61 | `strip()` leaves no whitespace at either end |
| Text.DropLeading | docesetup.py:62 | `lstrip(c)`: a suffix of the input that does not start with `c`, and only `c` was dropped |
| Text.DropTrailing | docesetup.py:62 | `rstrip(c)`: a prefix of the input that does not end with `c`, and only `c` was dropped |
| Text.StripKeeps | docesetup.py:61 | `strip()` never removes a non-whitespace character |
| Text.StripQuotes | docesetup.py:62 | `strip('"')` leaves no double quote at either end and removes nothing else: the result is a slice of the input with only double quotes around it |
| Text.IndexOf | docesetup.py:639 | the first position of the character, or the length when it is absent |
| Text.Lines | docesetup.py:57 | at least one line, and no line holds a newline |
| Text.JoinLines | docesetup.py:57 | joining the lines of a text with newlines gives the text back |
| Text.LinesJoin | docesetup.py:57 | splitting newline-free lines joined with newlines gives the lines back |
| Text.WordLen | docesetup.py:113 | the run of non-whitespace characters at the front, ending at whitespace or the end |
| Text.Words | docesetup.py:113 | definition of `split()`: the runs of non-whitespace characters, in order; WordsAreWords and WordsOfSpaceJoin state what they are |
| Text.WordsAreWords | docesetup.py:113 | every word of `split()` is non-empty and holds no whitespace |
| Text.WordsOfSpaceJoin | docesetup.py:113 | `split()` of words joined by single spaces gives the words back, in order |
| Text.ContainsInJoin | docesetup.py:342 | a non-empty newline-free substring of a joined text lies within one of its lines |
| Text.JoinContains | docesetup.py:342 | a substring of one line is a substring of the joined text |
| Distro.SplitOnce | docesetup.py:61 | `split('=', 1)`: the text is before + separator + after, with no separator before |
| Distro.ParseLine | docesetup.py:60-62 | a line yields an entry exactly when it contains `=`; the key holds no `=` |
| Distro.ParseKeyValue | docesetup.py:61-62 | `KEY=value` yields the key and the value with its quotes stripped |
| Distro.OsReleaseInfo | docesetup.py:58-62 | definition: the table of the parsed lines, filled in order; InfoLastWins and InfoMissing state its contents |
| Distro.Get | docesetup.py:64-65 | definition of `info.get(key, '')` |
| Distro.ParseOsRelease | docesetup.py:56-62 | the loop builds the table of all lines of `os-release` |
| Distro.TabulateLastWins | docesetup.py:59-62 | a key holds the value of its last entry |
| Distro.TabulateMissing | docesetup.py:59-62 | a key with no entry is absent |
| Distro.InfoLastWins | docesetup.py:59-64 | when several lines set a key, the last one wins |
| Distro.InfoMissing | docesetup.py:59-65 | a key no line sets is absent, so `get` yields `''` |
| Distro.DetectDistro | docesetup.py:54-78 | four sources, tried in order: `os-release` (ID lowered, VERSION_ID unquoted), `lsb_release`, `debian_version`, `platform` |
| PackageManager.SetupPackageManager | docesetup.py:80-106 | the result is one of the five managers or the no-manager fallback; only the fallback has an empty name; a real manager's commands start with its own name |
| PackageManager.AptRunsItself | docesetup.py:84 | side condition for the install dispatch: the apt-get commands invoke apt-get |
| PackageManager.DnfRunsItself | docesetup.py:87 | side condition for the install dispatch: the dnf commands invoke dnf |
| PackageManager.YumRunsItself | docesetup.py:89 | side condition for the install dispatch: the yum commands invoke yum |
| PackageManager.PacmanRunsItself | docesetup.py:91 | side condition for the install dispatch: the pacman commands invoke pacman |
| PackageManager.ZypperRunsItself | docesetup.py:93 | side condition for the install dispatch: the zypper commands invoke zypper |
| PackageManager.ProbesRunThemselves | docesetup.py:95-106 | every probed manager runs itself; the fallback is not among the probes |
| PackageManager.FirstPresent | docesetup.py:95-106 | definition of the `shutil.which` chain: the first probe on PATH, else none |
| PackageManager.FirstPresentPicksFirst | docesetup.py:95-106 | the probe picked is the first on PATH; nothing is found exactly when none is on PATH |
| PackageManager.UnknownDistroProbes | docesetup.py:94-106 | an id of no known family gets the first manager found on PATH, or the fallback when none is |
| PackageManager.KnownFamilyIgnoresPath | docesetup.py:83-93 | a known family's choice does not depend on PATH, except dnf against yum for the Fedora family |
| SshPort.IsPortLine | docesetup.py:112 | definition: the stripped line starts with `Port ` |
| SshPort.WordsNonEmpty | docesetup.py:113 | a text with a non-whitespace character has at least one word |
| SshPort.PortLineHasToken | docesetup.py:112-113 | a stripped line starting with `Port ` has a second word, so `split()[1]` exists |
| SshPort.PortToken | docesetup.py:113 | definition: `split()[1]` of the stripped line, which PortLineHasToken shows to exist |
| SshPort.WordsOfPortLine | docesetup.py:113 | `Port p` splits into exactly `Port` and `p` |
| SshPort.PortTokenOfDirective | docesetup.py:112-113 | the port read from the line `Port p` is `p` |
| SshPort.FirstPort | docesetup.py:111-115 | the second word of the first `Port` line; `22` when there is none |
| SshPort.DetectSshPort | docesetup.py:108-115 | the first `Port` line of `sshd_config` decides; `22` without the file or without such a line |
| Prompts.Classify | docesetup.py:189-193 | definition: the lowered line read as yes, as no, or as neither; ClassifyIgnoresCase and YesAndNoDisjoint state its properties |
| Prompts.AskOutcome | docesetup.py:184-195 | an answer consumes a non-empty prefix of the lines and leaves the rest |
| Prompts.Ask | docesetup.py:188-195 | the re-prompting loop gives the same reply as the outcome function |
| Prompts.AskTakesFirstRecognised | docesetup.py:188-195 | the answer is the first line that reads as yes or no, and the lines after it remain; the input runs out exactly when no line reads as yes or no |
| Prompts.ClassifyIgnoresCase | docesetup.py:189 | the answer does not depend on letter case |
| Prompts.YesAndNoDisjoint | docesetup.py:190-193 | no word is both a yes and a no |
| Prompts.IsIntSpace | docesetup.py:207 | definition of the whitespace `int()` skips: `\t` to `\r`, space, U+0085 and U+00A0 |
| Prompts.TrimIntStart | docesetup.py:207 | a suffix of the input with no leading `int()` whitespace, and only such whitespace dropped |
| Prompts.TrimIntEnd | docesetup.py:207 | a prefix of the input with no trailing `int()` whitespace, and only such whitespace dropped |
| Prompts.ParseInt | docesetup.py:207 | definition of `int()` on a decimal text: `int()` whitespace around, an optional sign, digits with single underscores between them |
| Prompts.ShowNat | docesetup.py:207 | the decimal text of a number is non-empty and made of ASCII digits |
| Prompts.DigitsValueShowNat | docesetup.py:207 | the digits of a number read back as the number |
| Prompts.ParseShowNat | docesetup.py:207 | `int()` of a number's decimal text is that number |
| Prompts.TrimIntUnchanged | docesetup.py:207 | a text with no `int()` whitespace at either end is not trimmed |
| Prompts.ParseDigits | docesetup.py:207 | a run of ASCII digits is read as its value |
| Prompts.ParseSpacedNat | docesetup.py:207 | spaces and line ends around a number are skipped |
| Prompts.TrimIntEndSpaces | docesetup.py:207 | a trailing `\r\n` is trimmed |
| Prompts.ParseRejectsSeparator | docesetup.py:207 | U+001C, whitespace for `isspace()`, in front of a number makes `int()` fail |
| Prompts.ChoiceOf | docesetup.py:207-209 | a choice is always from 1 to the number of options |
| Prompts.SelectOutcome | docesetup.py:197-213 | the selection is one of the options and consumes a non-empty prefix of the lines |
| Prompts.SelectOption | docesetup.py:205-213 | the re-prompting loop gives the same reply as the outcome function |
| Prompts.SelectTyped | docesetup.py:207-209 | typing `k` selects the `k`-th option |
| Prompts.SelectSkipsInvalid | docesetup.py:210-213 | a line that is not a number, or is out of range, is skipped |
| ConfigEditor.LeadLen | docesetup.py:151-152 | the maximal run of `#` and whitespace at the front: every character before it is one, the one after it is not |
| ConfigEditor.Found | docesetup.py:151 | definition of `re.search(r'^[#\s]*param\s', content, re.MULTILINE)` as a scan; FoundAppended, DirectiveLineActive and NotFoundInLine state when it holds |
| ConfigEditor.MatchEnd | docesetup.py:152 | the match `[#\s]*param.*` covers the parameter and ends at a newline or at the end of the text |
| ConfigEditor.Rewrite | docesetup.py:152 | definition of `re.sub(r'^[#\s]*param.*', 'param value', content, flags=re.MULTILINE)` as a scan; RewriteCanonical, RewriteIdempotent and RewriteJoin state what it does |
| ConfigEditor.UpdateConfig | docesetup.py:144-158 | the file is written exactly when it exists, and no other file changes; without a match `\nparam value` is appended; afterwards the directive is always found; with a match the result is canonical, i.e. every matched line is exactly `param value` |
| ConfigEditor.LeadLenCons | docesetup.py:151-152 | a `#` or a whitespace character in front lengthens the run by one and moves nothing after it |
| ConfigEditor.DirectiveLineActive | docesetup.py:151 | a written `param value` line is matched by the search |
| ConfigEditor.RewriteCopiesRestOfLine | docesetup.py:152 | after a match, the rest of the line is copied, and `^` holds again after the newline |
| ConfigEditor.RewriteKeepsNoDirective | docesetup.py:152 | the rewrite creates no match where there was none |
| ConfigEditor.DirectiveHasNoNewline | docesetup.py:152 | the replacement line holds no newline |
| ConfigEditor.RewriteDirectiveLine | docesetup.py:152 | a `param value` line rewrites to itself |
| ConfigEditor.RewriteIdempotent | docesetup.py:152 | the substitution applied twice equals it applied once |
| ConfigEditor.RewriteKeepsFound | docesetup.py:151-152 | after the rewrite the search still succeeds |
| ConfigEditor.FoundAppended | docesetup.py:154 | after the append the search succeeds |
| ConfigEditor.RewriteCanonical | docesetup.py:152 | after the rewrite, every place `[#\s]*param` matches at a line start is a whole `param value` line |
| ConfigEditor.UpdateConfigIdempotentWhenPresent | docesetup.py:144-158 | when the directive is already present, a second identical call changes nothing |
| ConfigEditor.LeadLenAppend | docesetup.py:151-152 | the `[#\s]*` run of a concatenation continues into the second part only when it spans the first |
| ConfigEditor.LeadSkipsBlank | docesetup.py:151-152 | `[#\s]*` runs straight across a blank or `#`-only prefix |
| ConfigEditor.LeadCrossesLine | docesetup.py:151-152 | a blank or `#`-only line lets the match start on the next line |
| ConfigEditor.DirectiveAtJoin | docesetup.py:152 | with no blank or `#`-only line above a directive, whether a match starts at the front depends on the first line only |
| ConfigEditor.RewriteOneLine | docesetup.py:152 | on a single line the substitution is the line-wise rewrite |
| ConfigEditor.RewriteHeadDirective | docesetup.py:152 | a first line that matches is replaced, and the substitution goes on after its newline |
| ConfigEditor.RewriteHeadCopied | docesetup.py:152 | a first line that does not match is copied, and the substitution goes on after its newline |
| ConfigEditor.RewriteJoin | docesetup.py:152 | with no blank or `#`-only line above a directive, the substitution acts line by line |
| ConfigEditor.UpdateConfigLinewise | docesetup.py:144-158 | with no blank or `#`-only line above a directive, exactly the matching lines become `param value` and all the other lines stay |
| ConfigEditor.RewriteCommentedLine | docesetup.py:151-152 | a commented-out `#param old` line is found and becomes `param new` |
| ConfigEditor.UncommentsPort | docesetup.py:144-158 | a file `#Port 22` updated with `Port 2222` becomes `Port 2222` |
| ConfigEditor.RewriteAcrossEmptyLine | docesetup.py:151-152 | a newline followed by the directive line collapses into that line |
| ConfigEditor.NotFoundInLine | docesetup.py:151 | a line that does not match, followed by a newline, is not found |
| ConfigEditor.SwallowContents | docesetup.py:151-154 | after the append the directive is found, and the rewrite deletes the blank line above it |
| ConfigEditor.AppendThenRewriteSwallowsBlankLine | docesetup.py:144-158 | a file `line\n` becomes `line\n\nparam value`, and a second call gives `line\nparam value`: the upsert is not idempotent |
| ConfigEditor.RewriteClobbersLongerName | docesetup.py:151-152 | setting `param` also overwrites a following line that starts with `param` followed by a non-whitespace character (a longer name, or `param=value`) |
| ConfigEditor.UpdateLines | docesetup.py:144-158 | definition of the corrected upsert on the text: rewrite the carrying lines, or append `\nparam value`; the UpdateLines lemmas state its properties |
| ConfigEditor.UpdateLinesKeepsOtherLines | docesetup.py:144-158 | the corrected upsert rewrites exactly the carrying lines and keeps every other line; without one it appends `\nparam value` |
| ConfigEditor.RewriteCarryingTwice | docesetup.py:152 | the corrected rewrite applied twice equals it applied once |
| ConfigEditor.UpdateLinesIdempotent | docesetup.py:144-158 | the corrected upsert applied twice equals it applied once, for every content |
| ConfigEditor.LongerNameLine | docesetup.py:151 | a line that starts with `param` followed by a non-whitespace character (a longer name, or `=`) does not carry `param` |
| ConfigEditor.UpdateLinesSparesLongerName | docesetup.py:151-152 | the corrected upsert leaves a line that starts with `param` followed by a non-whitespace character (a longer name, or `param=value`) alone |
| ConfigEditor.LinesAfterAppend | docesetup.py:154 | after the append, the lines are the old lines followed by the `param value` line |
| ConfigEditor.UpdateLinesCarries | docesetup.py:151-154 | after the corrected upsert, some line carries the directive |
| ConfigEditor.CarriesOne | docesetup.py:151 | a line cannot carry two directives when neither name is a prefix of the other |
| ConfigEditor.UpdateLinesSets | docesetup.py:151-154 | after the corrected upsert the directive holds `value`: some line carries it, and every line that carries it is exactly `param value` |
| ConfigEditor.UpdateLinesKeepsOther | docesetup.py:144-158 | the corrected upsert keeps every line that carries a directive of another name, in its place and unchanged, and adds no line carrying it |
| ConfigEditor.UpdateLinesKeepsSetting | docesetup.py:144-158 | a directive of another name that held its value still holds it after the corrected upsert |
| ConfigEditor.UpdateFile | docesetup.py:144-158 | the corrected `_update_config`: the file is written exactly when it exists, and no other file changes; its new text is the corrected upsert of the old, in which the directive holds `value` |
| ConfigEditor.UpdateFileKeepsOther | docesetup.py:144-158 | writing a second setting into a file keeps the first one, and when the first held its value (a `param value` line) it still does |
| ConfigEditor.UpdateFileTwice | docesetup.py:237-238 | two settings written in turn into one file with the corrected upsert: the text is the two upserts in turn, and afterwards each directive holds its own value; no other file changes |
| Fstab.SubSwap | docesetup.py:343 | definition of `re.sub(r'.*swapfile.*', entry, text)` as a scan; SubSwapLinewise gives it line by line |
| Fstab.SubSwapCopies | docesetup.py:343 | a line that does not mention `swapfile` is copied unchanged |
| Fstab.SubSwapFirstLine | docesetup.py:343 | `.*swapfile.*` acts on the first line, then goes on after its newline |
| Fstab.SubSwapLinewise | docesetup.py:343 | `re.sub(r'.*swapfile.*', entry)` equals replacing, line by line, each line that mentions `swapfile` |
| Fstab.SubSwapLines | docesetup.py:343 | the lines after the substitution are the fixed lines |
| Fstab.UpdateFstab | docesetup.py:337-348 | only `/etc/fstab` may change, and nothing happens without it |
| Fstab.UpdateFstabRewrites | docesetup.py:342-345 | with `/swapfile` present: the same number of lines, with each line mentioning `swapfile` replaced by the entry |
| Fstab.UpdateFstabAppends | docesetup.py:346-348 | without `/swapfile`: the old lines, then the entry, then an empty last line |
| Fstab.SubSwapFixed | docesetup.py:343 | a text whose only `swapfile` lines are the entry is left unchanged |
| Fstab.SubSwapMentions | docesetup.py:342-343 | the substitution keeps `/swapfile` mentioned |
| Fstab.AppendedEntryFixed | docesetup.py:346-348 | after the append the text mentions `/swapfile` and the substitution leaves it unchanged |
| Fstab.UpdateFstabIdempotent | docesetup.py:337-348 | a second update leaves `/etc/fstab` as the first left it |
| Locale.LocaleFor | docesetup.py:602-605 | a locale is found exactly when the description is in the table |
| Locale.FindLocale | docesetup.py:602-605 | the search loop finds the same locale as the function |
| Locale.LocaleForEntry | docesetup.py:602-605 | when descriptions are distinct, the `i`-th description finds the `i`-th locale |
| Locale.LocalesDistinct | docesetup.py:583-595 | the eleven descriptions are distinct |
| Locale.LanguageCode | docesetup.py:682 | definition of `split('_')[0]`; LanguageCodeOf and LanguageCodeWhole state its value |
| Locale.LanguageCodeOf | docesetup.py:682 | `split('_')[0]` of `lang_REGION` is `lang` |
| Locale.LanguageCodeWhole | docesetup.py:682 | without `_` the whole name is the code |
| Locale.MatchesLocale | docesetup.py:669 | definition: the locale name, read as a pattern, matches at the front, a `.` standing for any character but a newline |
| Locale.Uncomment | docesetup.py:669 | definition of `re.sub(f"^#\s*{locale}", locale, content, flags=re.MULTILINE)` as a scan; UncommentLinewise gives it line by line |
| Locale.SpaceRun | docesetup.py:669 | the `\s*` run never exceeds the text |
| Locale.UncommentCopiesLine | docesetup.py:669 | a line that does not start with `#` is copied unchanged |
| Locale.UncommentMatchingLine | docesetup.py:669 | a line `#\s*locale...` loses its `#` and the spaces |
| Locale.UncommentOtherCommentedLine | docesetup.py:669 | a commented line for another locale is copied |
| Locale.UncommentFirstLine | docesetup.py:669 | the substitution acts on the first line, then goes on after its newline |
| Locale.UncommentLastLine | docesetup.py:669 | on a last line the substitution is the line-wise one |
| Locale.UncommentLinewise | docesetup.py:669 | without a bare `#` line, `re.sub('^#\s*locale', locale)` is the line-wise uncommenting |
| Locale.UncommentsChosenLine | docesetup.py:669 | `#  locale rest` becomes `locale rest` |
| Locale.DotIsWildcard | docesetup.py:669 | the unescaped `.` in the locale name matches any character, so a line differing only there is rewritten too |
| Services.AskAll | docesetup.py:543-545 | `n` answers in a row consume part of the input |
| Services.Chosen | docesetup.py:543-545 | the chosen services are no more than the candidates |
| Services.SelectFrom | docesetup.py:542-545 | the loop from service `i` on reads a suffix of the input |
| Services.SelectionOutcome | docesetup.py:542-545 | definition: the services answered with yes, from the first question on; SelectFromAnswers and ChosenMembers state the selection |
| Services.SelectServices | docesetup.py:542-545 | the selection loop gives the same reply as the function |
| Services.SelectFromAnswers | docesetup.py:542-545 | the selection is the services answered with yes, given the answers in turn |
| Services.ChosenMembers | docesetup.py:543-545 | a service is selected exactly when its question was answered with yes |
| Services.ChosenAll | docesetup.py:543-545 | yes to every question selects every service, in order |
| Services.ChosenIsSubsequence | docesetup.py:543-545 | the selection keeps the table order |
| Services.ServiceCommands | docesetup.py:572-574 | definition of `systemctl disable`, `stop` and `mask` for one service, in that order |
| Services.DisableCommandsOf | docesetup.py:570-574 | definition: disable, stop and mask for each selected service, in order; DisableCommandsLayout states the layout |
| Services.DisableCommands | docesetup.py:570-574 | the command loop produces disable, stop and mask per service |
| Services.DisableCommandsLayout | docesetup.py:570-574 | three commands per service, at positions `3i`, `3i+1` and `3i+2` |
| Actions.RootLoginFiles | docesetup.py:236-238 | only `sshd_config` changes, and nothing happens without it; afterwards every line carrying `PermitRootLogin` is `PermitRootLogin yes`, every line carrying `PasswordAuthentication` is `PasswordAuthentication yes`, and each has at least one |
| Actions.ChpasswdCommand | docesetup.py:246-253 | definition of `echo 'name:password' \| chpasswd` |
| Actions.IsRegularUser | docesetup.py:252 | definition of the account filter: uid from 1000 up to, not including, 65534 |
| Actions.PasswordCommands | docesetup.py:251-253 | definition: a `chpasswd` for each regular account, in account order; PasswordCommandsPerUser states it |
| Actions.PropagatePassword | docesetup.py:251-253 | the account loop gives the per-account commands |
| Actions.PasswordCommandsPerUser | docesetup.py:251-253 | one `chpasswd` per account with uid from 1000 to 65533, in order, and none for the others |
| Actions.RootPassword | docesetup.py:241-270 | reads a prefix of the input, only appends commands, writes no file |
| Actions.NewRootPassword | docesetup.py:242-260 | reading and setting the new password reads a prefix of the input, only appends commands, writes no file |
| Actions.OtherAccounts | docesetup.py:249-270 | reads a prefix of the input, only appends commands, writes no file |
| Actions.ConfigureRootSsh | docesetup.py:229-274 | reads a prefix of the input, only appends commands; no file other than `sshd_config` changes |
| Actions.RootSshEmptyPassword | docesetup.py:241-258 | with an empty password, `sshd_config` is edited but no command is issued |
| Actions.RootSshPropagates | docesetup.py:241-270 | with yes three times: root's `chpasswd`, then each regular account's, then the sshd restart |
| Actions.KeepAliveFiles | docesetup.py:283-285 | only `sshd_config` changes, and nothing happens without it; afterwards every line carrying `ClientAliveInterval` is `ClientAliveInterval 290`, every line carrying `ClientAliveCountMax` is `ClientAliveCountMax 63`, and each has at least one |
| Actions.DisableSshTimeout | docesetup.py:276-300 | reads a prefix of the input; only `sshd_config` may change; without `sshd_config` nothing changes |
| Actions.DisableSshTimeoutAnswers | docesetup.py:279-300 | the answer decides: yes with `sshd_config` present writes both keep-alive settings and issues the sshd restart; no, or no `sshd_config`, changes nothing; an end of input stops the script |
| Actions.CreateSwap | docesetup.py:302-376 | an existing swap changes nothing; otherwise either nothing, or the four swap commands for one of the sizes plus the fstab update; no other file changes |
| Actions.ChooseSwap | docesetup.py:314-372 | after a yes: either nothing, or the swap commands for one of the offered sizes plus the fstab update |
| Actions.SwapCommands | docesetup.py:351-357 | definition of the four swap commands for a size: `fallocate`, `chmod 600`, `mkswap`, `swapon`, in that order |
| Actions.SwapCreated | docesetup.py:316-372 | the given size's four swap commands are appended and fstab is updated; only fstab changes |
| Actions.CreateSwapTyped | docesetup.py:311-372 | yes and size `k` give the commands for the `k`-th size and the fstab update |
| Actions.Arch32Commands | docesetup.py:412-429 | definition: the family's commands for 32-bit support |
| Actions.Arch32GenericFallsBack | docesetup.py:425-429 | an unknown id runs the Debian steps, each followed by an `echo` fallback |
| Actions.Enable32Bit | docesetup.py:378-433 | the answer decides: yes issues the commands of the distribution's family, no issues nothing; no file is written |
| Actions.CertbotSetup | docesetup.py:440-464 | definition: no command when `certbot` is on PATH, else the family's install command |
| Actions.CertbotInstall | docesetup.py:457-464 | definition: the family's certbot installation command |
| Actions.RemoveDots | docesetup.py:474 | `replace('.', '')` leaves no dot |
| Actions.DomainRejected | docesetup.py:474 | definition of `not domain or domain.replace('.', '').isdigit()`; DomainRejectedIff restates it without the replace |
| Actions.RemoveDotsKeeps | docesetup.py:474 | exactly the non-dot characters remain |
| Actions.DomainRejectedIff | docesetup.py:474 | a domain is refused exactly when it is empty, or is only digits and dots with at least one digit |
| Actions.DomainCertificate | docesetup.py:470-497 | only the certbot cron file may change |
| Actions.IpCertificate | docesetup.py:498-525 | writes no file; the commands only grow and the rest of the input is a suffix |
| Actions.IpCertificateAnswers | docesetup.py:498-525 | an address in the machine's valid addresses issues exactly the openssl self-signed command for it; any other line cancels with nothing issued; end of input stops the script |
| Actions.SslIpPath | docesetup.py:466-475 | for any list of methods whose second does not mention `Domínio`, choosing 2 leads to the address question after any certbot installation |
| Actions.SslSelfSigned | docesetup.py:435-525 | the whole action on choice 2: installation, then the self-signed command only for a valid address, no file written |
| Actions.ConfigureSslAmong | docesetup.py:435-527 | reads a prefix of the input; only the cron file may change |
| Actions.ConfigureSsl | docesetup.py:435-527 | reads a prefix of the input; only the cron file may change |
| Actions.MethodNames | docesetup.py:467-470 | side condition for the SSL dispatch lemmas: only the first method mentions `Domínio` |
| Actions.SslDomainPath | docesetup.py:466-472 | for any list of methods whose first mentions `Domínio`, choosing 1 leads to the domain branch after any certbot installation |
| Actions.SslChoosesDomain | docesetup.py:466-472 | with the script's two methods, choosing 1 leads to the domain branch after any certbot installation |
| Actions.DomainRejectedStops | docesetup.py:471-476 | a refused domain returns without a change |
| Actions.DomainAcceptedCertifies | docesetup.py:471-493 | an accepted domain issues `certbot certonly` and writes the cron file |
| Actions.SslRejectsDomain | docesetup.py:435-476 | the whole action on a refused domain issues only the certbot installation |
| Actions.SslAcceptsDomain | docesetup.py:435-497 | the whole action on an accepted domain: installation, `certonly`, cron file |
| Actions.DisableServicesAmong | docesetup.py:529-578 | reads a prefix of the input, only appends commands, writes no file |
| Actions.DisableServices | docesetup.py:529-578 | reads a prefix of the input, only appends commands, writes no file |
| Actions.DisableServicesAnswers | docesetup.py:532-574 | after yes, the commands are those for the services answered with yes, in table order |
| Actions.DebianLocale | docesetup.py:661-679 | `locale.gen` has the locale uncommented, or is written with `locale UTF-8` when it was missing; `locale.conf` and every other file stay; then install, `locale-gen`, `update-locale` |
| Actions.FedoraLocale | docesetup.py:680-685 | no file changes; the language pack of the language code, then `localectl set-locale` |
| Actions.ArchLocale | docesetup.py:686-694 | `locale.conf` holds `LANG=locale`, `locale.gen` holds just the locale's line; then `locale-gen` |
| Actions.GenericLocale | docesetup.py:695-702 | `locale.conf` holds `LANG=locale`; with `locale-gen` on PATH the line is appended to `locale.gen` and `locale-gen` runs, otherwise nothing else changes |
| Actions.ApplyLocale | docesetup.py:661-702 | only appends commands; only the two locale files may change; the distribution's family selects the Debian, Fedora, Arch or generic branch |
| Actions.ChangeLocaleAmong | docesetup.py:580-712 | reads a prefix of the input; only the two locale files may change |
| Actions.ChooseLocale | docesetup.py:599-702 | after a yes, choosing a locale reads a prefix of the input and changes only the two locale files |
| Actions.ApplyChosen | docesetup.py:601-702 | applying the chosen locale only appends commands and changes only the two locale files |
| Actions.ChangeLocale | docesetup.py:580-712 | reads a prefix of the input; only the two locale files may change |
| Actions.ChangeLocaleTyped | docesetup.py:597-702 | yes and option `k` apply the `k`-th locale of the table |
| Menu.DepsCommands | docesetup.py:139-142 | definition: one install command per package not on PATH; DepsInstallMissing states it |
| Menu.InstallDeps | docesetup.py:139-142 | the dependency loop gives one install command per package not on PATH |
| Menu.DepsInstallMissing | docesetup.py:139-142 | exactly the missing packages are installed, each once, in order |
| Menu.Options | docesetup.py:758-766 | definition: the seven actions under the keys `1` to `7`; OptionKeys states the keys |
| Menu.OptionsWellBehaved | docesetup.py:758-766 | every option reads a prefix of the input and only appends commands |
| Menu.RunFrom | docesetup.py:789-791 | running the options in turn reads a prefix of the input |
| Menu.RunMatching | docesetup.py:806-811 | a choice matching no key does nothing |
| Menu.RunAllOutcome | docesetup.py:789-800 | option 8 reads a prefix of the input |
| Menu.SingleOutcome | docesetup.py:806-814 | a single option, then Enter, consumes at least one line |
| Menu.MenuOutcome | docesetup.py:771-814 | the loop reads a prefix of the input and only appends commands |
| Menu.MenuLoop | docesetup.py:771-814 | the loop gives the same outcome as the function |
| Menu.RunOutcome | docesetup.py:744-814 | update, dependencies, then the menu: reads a prefix of the input and only appends commands |
| Menu.Run | docesetup.py:732-814 | `run` gives the same outcome as the function |
| Menu.ExitLeaves | docesetup.py:802-804 | `9` leaves with nothing changed |
| Menu.UnknownChoiceSkipped | docesetup.py:806-814 | an unknown choice and Enter change nothing, and the loop continues |
| Menu.MatchingRunsOption | docesetup.py:808-811 | a choice runs the first option with that key |
| Menu.OptionKeys | docesetup.py:758-769 | seven options keyed `1` to `7`, none keyed `8` or `9` |
| Menu.RunAllEnds | docesetup.py:789-800 | option 8 runs every option in turn, then asks the reboot question and leaves: `reboot` is issued exactly when the answer is yes, and an end of input stops the script |
| Menu.OptionsConfined | docesetup.py:758-766 | every option writes only the managed files |
| Menu.RunFromConfined | docesetup.py:789-791 | running the options in turn writes only the managed files |
| Menu.RunMatchingConfined | docesetup.py:806-811 | the chosen option writes only the managed files |
| Menu.MenuConfined | docesetup.py:771-814 | the loop writes only the managed files |
| Menu.RunConfined | docesetup.py:732-814 | the whole run writes only `sshd_config`, `fstab`, the certbot cron file, `locale.gen` and `locale.conf` |

## Left out

- The rich UI path (`RICH_AVAILABLE`): only the plain-console branches are modelled. Both paths issue the same commands.
- Printing, colours, the `clear` call, `time.sleep` and the banner are output-only and are not modelled.
- Commands are not run: `_execute_command` appends the command to the world's list, and `_get_command_output` becomes a parameter (`lsb_release`, `swapon --show`).
- The output of `swapon --show` is fixed for the whole session, so a swap created by option 3 is not seen by a later option 3.
- `_check_root` and `install_rich_if_needed` (the `os.geteuid` check, `pip install` and `os.execv`) are environment set-up and are not modelled.
- The reboot after option 8 is only the recorded command `reboot`.
- The `os.environ` updates at the end of `change_locale` affect the process only and are not modelled.
- `getpass.getpass()` is modelled as reading the next input line. Terminal echo handling is not modelled.
- `ipaddress.ip_address` is the `validIps` set of the machine. IP address syntax is not modelled.
- `os.makedirs('/etc/ssl/private')` is not modelled. Directories are not part of the file map.
- Writing `/etc/cron.d/certbot` into a missing `/etc/cron.d` cannot fail in the model.
- Universal-newline translation (`\r\n` read as `\n`) is not modelled: a file's text is the text Python reads.
- Character classes (`isspace`, `isdigit`, `lower`, `\s`) are exact for Latin-1 only.
- The digit-count limit of `int()` is not modelled.
- Floating-point percentages of the progress bars are not modelled.
- Locale.UncommentLinewise: the line-wise reading requires no line made only of `#` and whitespace. On such a line `\s*` runs into the next line, and only the scan model `Locale.Uncomment` describes that case.
- Actions.RootLoginFiles: writes `PermitRootLogin` and `PasswordAuthentication` with the corrected upsert `ConfigEditor.UpdateFile`, not with `_update_config` as written (`ConfigEditor.UpdateConfig`); the script's result differs in three ways. (1) Every blank or `#`-only line directly above a matching line is deleted by the script, because `^[#\s]*` runs across line ends (`#\nPermitRootLogin no` becomes `PermitRootLogin yes`); the model keeps those lines. The blank line the script's own append leaves is one case of this, the first row of "## Findings". (2) A line whose name is followed by a non-whitespace character is overwritten by the script, because `.*` follows the bare name; the model keeps it, since a line carries the directive only when whitespace or the line end follows the name. This covers a longer name (`PermitRootLogin no\nPermitRootLoginX y` becomes two `PermitRootLogin yes` lines) and sshd's `Keyword=value` form (`PermitRootLogin no\nPermitRootLogin=no` becomes two `PermitRootLogin yes` lines); both are the second row of "## Findings". (3) When no line has the name followed by whitespace and the text's last line ends with the bare name (`PermitRootLogin`, or `PermitRootLoginX y\nPermitRootLogin`), the script's search, which needs a whitespace character after the name, fails and it appends a new line; the model rewrites that last line. This one is not a "## Findings" row.
- Actions.KeepAliveFiles: writes `ClientAliveInterval` and `ClientAliveCountMax` with the corrected upsert, and differs from the script in the same three ways as Actions.RootLoginFiles.
- ConfigEditor.UpdateFileTwice: the corrected upsert applied twice; the script's calls at docesetup.py:237-238 and 284-285 use `_update_config` as written, which differs in the same three ways as Actions.RootLoginFiles.
- Fstab.UpdateFstabIdempotent: stated for files that either mention `/swapfile` or do not mention `swapfile` at all. A file mentioning `swapfile` without the slash gets the entry appended and then rewritten.
- ConfigEditor.UpdateConfigLinewise: stated for files without a blank or `#`-only line directly above a matching line. The general case is covered by ConfigEditor.RewriteCanonical and by the findings below.

## Findings

| source | as written | input that shows it | evidently intended | confidence | as-written member | corrected member |
|---|---|---|---|---|---|---|
| docesetup.py:151-154 | when the directive is missing, `\nparam value` is appended after a file that already ends with a newline. That leaves a blank line, and on the next call `^[#\s]*` runs across it, so the rewrite deletes the blank line | file `abc\n`, parameter `Port`, value `2222`: one call gives `abc\n\nPort 2222`, a second gives `abc\nPort 2222` | setting the same directive twice leaves the file as setting it once | not executed | ConfigEditor.AppendThenRewriteSwallowsBlankLine | ConfigEditor.UpdateLinesIdempotent |
| docesetup.py:151-152 | the search requires whitespace after the parameter, but the substitution `^[#\s]*param.*` does not. Once the directive is found, every line that starts with the parameter's name followed by any non-whitespace character is overwritten too: a longer name, or sshd's `Keyword=value` form | file `HostKey a\nHostKeyAlgorithms b` (or `HostKey a\nHostKey=b`), parameter `HostKey`, value `c`: both lines become `HostKey c` | only lines carrying the directive itself (name followed by whitespace or line end) are rewritten | not executed | ConfigEditor.RewriteClobbersLongerName | ConfigEditor.UpdateLinesSparesLongerName |
