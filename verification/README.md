# Resume text parser, modelled in Dafny

This project models the text half of the resume upload endpoint in
`backend/app/api/resume.py`. Once a PDF has been turned into one string, a chain
of string and line transformations turns it into the `extracted_data`
dictionary:

- `extract_links` finds the GitHub, LinkedIn, Behance and Twitter/X profile URLs.
- `segment_sections` cuts the lines into named sections at header lines.
- `parse_experience`, `parse_education`, `parse_projects` and `parse_skills`
  turn one section each into entries or skill buckets.
- The body of `parse_resume` reads the e-mail, phone number and headline off
  the whole text, merges the links and calls a section parser for each section
  that exists.

Every regex is a hand-written matcher over `seq<char>`. Each matcher is proved
sound and complete against a declarative description of what the pattern
accepts: what it finds is a match, and every match at an index is the one it
finds. For the phone number this includes the greedy country code: among the
code lengths with which the pattern matches, the longest is the match. re.search becomes `Text.Search`, the leftmost index at which a matcher
succeeds; re.findall becomes a scan that resumes where the last match ended.

The line loops are folds over the lines. `segment_sections` and
`parse_education` keep their loop state as a datatype and take every branch of
the source, including the ones that cannot fire. `parse_experience` and
`parse_projects` are instances of the generic loop `Grouping.Scan`. That loop
runs over `Text.CleanLines`, the stripped non-blank lines, which is where the
source's strip-and-skip-blank step sits. Each fold is proved equal, for all
inputs, to an independent reference definition. That reference is
`Grouping.Groups`: every "opener" line starts a group, and the lines up to the
next opener belong to that group.

Modules, one file each:

- `wrappers.dfy`: `Option`.
- `text.dfy`: the Python string operations the parser uses. These are strip,
  lower, `in`, split, join and the leftmost-match search.
- `grouping.dfy`: the group reference definition and the generic parser loop,
  with the proof that they agree.
- `links.dfy`: `extract_links`.
- `sections.dfy`: `segment_sections`.
- `experience.dfy`: `parse_experience`.
- `education.dfy`: `parse_education`.
- `projects.dfy`: `parse_projects`.
- `skills.dfy`: `parse_skills`.
- `contact.dfy`: e-mail, phone and headline.
- `resume.dfy`: the `parse_resume` body.

The model follows the code where the code's behaviour differs from its comments
or from the documented intent:

- **Experience dates.** The detection pattern is case-sensitive. It accepts
  19xx, 20xx, "Present" and "Current". The extraction pattern is
  case-insensitive, accepts only 20xx and "Present", and takes an optional
  whitespace character in front of the year. So a start date can be " 2020",
  and a line dated only 19xx keeps both dates empty.
- **Education.** Every keyword or year line closes the open entry and opens a
  new one. So the degree continuation and the start-year shift never run:
  `degree` and `start_year` are always empty.
- **Sections.**
  - A section is written only from a non-empty buffer. A later section of the
    same name overwrites an earlier one.
  - The empty text still produces `{"header": ""}`, because "".split("\n") is
    `[""]`.
- **Skills.** The first separator replaced is the three-character string
  "â€¢". This is the UTF-8 bytes of "•" read as Windows-1252, not "•" itself.
- **Link merge.** The Twitter/X pattern `x\.com/` also matches inside any host
  ending in "x.com". So "netflix.com/abc" yields the twitter_url
  "https://x.com/abc".
- **Missing sections.** The profile omits the list fields of absent sections
  instead of giving them empty defaults. They are `None` in `Resume.Profile`.

## Model

| member | source | states |
|---|---|---|
| Text.Strip | backend/app/api/resume.py:49 | str.strip: the result has no leading or trailing whitespace, and it is a contiguous piece of the input with only whitespace around it |
| Text.Contains | backend/app/api/resume.py:55 | `pat in s` holds iff `pat` occurs at some index of `s` |
| Text.Split | backend/app/api/resume.py:34 | split('\n') gives one more piece than there are separators, no piece holds the separator, and the first piece is the text up to the first separator |
| Text.JoinSplit | backend/app/api/resume.py:34 | joining the pieces of `text.split(sep)` with `sep` gives back `text` |
| Text.SplitJoin | backend/app/api/resume.py:205 | splitting a `sep`-join of separator-free pieces gives back exactly those pieces |
| Text.CleanLines | backend/app/api/resume.py:239 | the stripped non-blank lines: no more of them than lines, each non-empty and stripped |
| Text.CleanLinesFilter | backend/app/api/resume.py:239 | the clean lines are exactly the stripped lines that are not empty, in their original order |
| Text.Search | backend/app/api/resume.py:232 | re.search semantics: the index found is the first from `from` on where the pattern matches, with that match's end; none iff it matches at no index up to the end |
| Text.FirstYear | backend/app/api/resume.py:150 | re.search(r'20\d{2}'): none iff no 20xx at any index; otherwise the leftmost 20xx |
| Grouping.HeadsAreOpeners | backend/app/api/resume.py:87-106 | the group heads are exactly the opener lines, in order, so there are as many groups as openers |
| Grouping.GroupsWellFormed | backend/app/api/resume.py:87-118 | every group starts with an opener and holds no other opener |
| Grouping.BodiesAreTheRest | backend/app/api/resume.py:116-118 | the lines before the first opener, then the group bodies in order, are exactly the non-opener lines: none lost, duplicated or moved |
| Grouping.ScanIsGrouped | backend/app/api/resume.py:87-121 | the loop that closes the open entry at each opener and extends it at other lines makes one entry per group, in order, and drops the lines before the first opener |
| Links.LinkAt | backend/app/api/resume.py:13-26 | at index `i`, the matcher for one link pattern (a host prefix compared ignoring case, then `[\w-]+`) finds a match exactly when the pattern matches there, and the end it finds is the only end a match there can have, after the whole run of link characters |
| Links.ExtractLinks | backend/app/api/resume.py:10-31 | extract_links writes only github_url, linkedin_url, behance_url and twitter_url |
| Links.LinksReported | backend/app/api/resume.py:13-26 | each of the four keys is present iff its pattern matches somewhere, and its value is "https://" plus the leftmost match in its original case |
| Links.NetflixIsTwitter | backend/app/api/resume.py:25-26 | "netflix.com/abc" yields the twitter_url "https://x.com/abc" |
| Sections.AnyIn | backend/app/api/resume.py:55 | any(trigger in clean) holds iff some trigger occurs in the line |
| Sections.FirstKey | backend/app/api/resume.py:54-57 | the key found is the first key in the dictionary's order with a trigger in the line; none iff no key has one |
| Sections.HeaderKey | backend/app/api/resume.py:49-57 | a line is a header iff its stripped lower-case form is shorter than 30 characters and holds a trigger, and its key is then the first such key |
| Sections.BlankIsNoHeader | backend/app/api/resume.py:49-57 | a blank line is never a header |
| Sections.SegmentSections | backend/app/api/resume.py:33-70 | segment_sections; stated by Sections.SegmentIsWrite, SectionPresent, SectionText and NoHeaders |
| Sections.SegmentIsWrite | backend/app/api/resume.py:48-68 | the loop writes exactly these blocks into the map, in order: the text before the first header under "header", then each header's lines under its key |
| Sections.WriteKeys | backend/app/api/resume.py:60-61 | a key ends up in the map iff some non-empty block carries it |
| Sections.WriteLastWins | backend/app/api/resume.py:59-68 | a key's value is the last non-empty block of that name joined with "\n": later sections of the same name overwrite earlier ones |
| Sections.SectionPresent | backend/app/api/resume.py:59-68 | a section key is present iff some block of that name has lines |
| Sections.SectionText | backend/app/api/resume.py:59-68 | a present section's text is its last non-empty block's lines joined with "\n" |
| Sections.SectionNames | backend/app/api/resume.py:36-57 | every key is "header" or one of the five keyword keys |
| Sections.BlocksAreTheOtherLines | backend/app/api/resume.py:59-65 | no header line is in any block, and the blocks' lines, in order, are exactly all other lines, verbatim |
| Sections.NoHeaders | backend/app/api/resume.py:33-70 | text without header lines yields exactly {"header": text} |
| Sections.EmptyText | backend/app/api/resume.py:34-68 | the empty text yields {"header": ""} |
| Experience.FindDates | backend/app/api/resume.py:109 | re.findall of the extraction regex returns only date tokens: a 20xx year with an optional month and/or one whitespace character before it, or "present" in any case |
| Experience.DateTokenAt | backend/app/api/resume.py:109 | the length of the extraction regex's match at an index, trying the alternatives in the engine's order; 0 when it does not match there; a match ends within the text |
| Experience.DateTokenShape | backend/app/api/resume.py:109 | what the matcher finds is a date token |
| Experience.DateTokenComplete | backend/app/api/resume.py:109 | wherever a date token occurs, the matcher finds exactly that token there, so it misses no match and never picks another length |
| Experience.NoDatesFound | backend/app/api/resume.py:109-110 | findall finds nothing iff no date token occurs anywhere in the line |
| Experience.DatesAt | backend/app/api/resume.py:109-111 | when no date token starts before `i` and one starts at `i`, findall returns that token followed by findall resumed where it ends |
| Experience.FirstDateIsLeftmost | backend/app/api/resume.py:109-115 | the first date is the token at the leftmost index where one occurs, and the rest are findall resumed after it, so the end date is the leftmost token after the start date |
| Experience.ParseExperience | backend/app/api/resume.py:72-123 | parse_experience; stated by Experience.ExperienceEntries, ExperienceTitles and ExperienceKeepsUndatedLines |
| Experience.ExperienceEntries | backend/app/api/resume.py:87-121 | one entry per dated line, in order: title is the line, company is "", dates come from the title (first token, then the second token or "Present", or both "" with no token), and the description is each later undated line followed by "\n" |
| Experience.ExperienceTitles | backend/app/api/resume.py:92-101 | the titles are exactly the dated non-blank stripped lines, in document order |
| Experience.ExperienceKeepsUndatedLines | backend/app/api/resume.py:116-118 | the undated lines before the first dated line, then all descriptions, are every undated line in order: only that leading run is dropped |
| Experience.SpacedYearExample | backend/app/api/resume.py:109-115 | "X 2020" gets the start date " 2020", space included, and the end date "Present" |
| Education.Step | backend/app/api/resume.py:133-161 | one turn of the loop as written, with the degree and start-year branches; stated by Education.RunIsScan |
| Education.ParseEducation | backend/app/api/resume.py:125-166 | parse_education; stated by Education.EducationEntries and EducationNeverFillsDegree |
| Education.RunIsScan | backend/app/api/resume.py:133-164 | the loop as written, with the degree and start-year branches, equals the simple loop where each keyword or year line opens a new entry and grade lines update the open one |
| Education.EducationEntries | backend/app/api/resume.py:133-166 | one entry per keyword or year line, in order: institution is the line, end_year its first 20xx year or "", grade the last cgpa/gpa/% line before the next such line; degree and start_year stay "" |
| Education.EducationNeverFillsDegree | backend/app/api/resume.py:139-156 | there are as many entries as keyword or year lines, and no entry ever gets a degree or a start_year |
| Projects.ColonSplit | backend/app/api/resume.py:181-188 | a line with a colon is its text before the first colon, the colon, then its text after, and the first part holds no colon |
| Projects.ParseProjects | backend/app/api/resume.py:168-198 | parse_projects; stated by Projects.ProjectEntries and ProjectTitles |
| Projects.ProjectEntries | backend/app/api/resume.py:176-198 | one entry per title line, in order: title and description are the trimmed text around the first colon, later lines are appended as "\n" + line, and tech_stack and url are "" |
| Projects.ProjectTitles | backend/app/api/resume.py:181-188 | there are as many entries as title lines, and every title is shorter than 30 characters and holds no colon |
| Skills.Replace | backend/app/api/resume.py:204 | str.replace, left to right without overlaps; its properties are stated by the lemmas below |
| Skills.ReplaceJoin | backend/app/api/resume.py:204 | pieces joined by a pattern of any length, none holding the pattern's first character, come out joined by the replacement, each piece whole and in order |
| Skills.ReplaceIsJoinSplit | backend/app/api/resume.py:204 | replacing one character is splitting at it and joining with the replacement: every other character is kept, in order |
| Skills.ReplaceRemoves | backend/app/api/resume.py:204 | str.replace of a single character by text without it leaves none of that character |
| Skills.ReplaceKeeps | backend/app/api/resume.py:204 | text in which the pattern does not occur is returned unchanged |
| Skills.ReplaceClears | backend/app/api/resume.py:204 | with a replacement none of whose characters is in the pattern, no occurrence of the pattern is left |
| Skills.Normalize | backend/app/api/resume.py:204 | the three replacements in order; stated by Skills.NormalizeJoin, Skills.NormalizeNoBullet and Skills.SkillsAreClean |
| Skills.NormalizeJoin | backend/app/api/resume.py:204 | pieces separated by "â€¢" and free of the separator characters come out separated by commas, each piece unchanged and in order |
| Skills.NormalizeNoBullet | backend/app/api/resume.py:204 | no "â€¢" is left after the three replacements: the later ones, pipe and line feed to comma, create none |
| Skills.KeepSelects | backend/app/api/resume.py:205-209 | a piece is kept iff trimming leaves it non-empty and shorter than 30 characters; the kept skills are those trimmed pieces, in their original order |
| Skills.SkillsAreClean | backend/app/api/resume.py:204-209 | every kept skill is non-empty, stripped, shorter than 30 characters and free of commas, pipes and line feeds |
| Skills.ReadJoined | backend/app/api/resume.py:213-214 | splitting a ", "-join of skills at its commas and trimming gives back the skills |
| Skills.SkillBuckets | backend/app/api/resume.py:211-215 | primary reads back as the first five skills and tools as the rest; together they are the whole list, in order |
| Skills.ParseSkills | backend/app/api/resume.py:200-215 | parse_skills; stated by Skills.SkillBuckets and Skills.ParseJoined |
| Skills.ParseJoined | backend/app/api/resume.py:200-215 | a ", "-joined list of clean skills parses back into the same list, cut after the fifth skill |
| Skills.SkillsExample | backend/app/api/resume.py:200-215 | "Python, Java, SQL, React, Docker, Git, AWS" gives primary "Python, Java, SQL, React, Docker" and tools "Git, AWS" |
| Contact.EmailAt | backend/app/api/resume.py:232 | the matcher for `[\w\.-]+@[\w\.-]+`: what it finds at `i` is a match of the pattern |
| Contact.EmailAtComplete | backend/app/api/resume.py:232 | any match of the pattern at `i` is the one the matcher finds |
| Contact.Email | backend/app/api/resume.py:232-233 | the e-mail field; stated by Contact.EmailIsLeftmost |
| Contact.EmailIsLeftmost | backend/app/api/resume.py:232-233 | the e-mail is the leftmost match of the pattern; there is none iff the pattern matches nowhere |
| Contact.CoreAtSound | backend/app/api/resume.py:235 | what the matcher for `\(?\d{3}\)?[-.]?\d{3}[-.]?\d{4}` finds is the ten-digit shape under some choice of the optional characters |
| Contact.CoreAtComplete | backend/app/api/resume.py:235 | any way of matching that shape at `j` is the one the greedy matcher finds |
| Contact.CountryAtIsGreedy | backend/app/api/resume.py:235 | `\+\d{1,3}` takes the most country digits that let the rest match, as the backtracking engine does; none when no digit count works |
| Contact.PhoneAt | backend/app/api/resume.py:235 | the phone regex at one index: the country-code form after a "+", else the ten-digit form; stated by Contact.PhoneAtMatches and CountryAtIsGreedy |
| Contact.PhoneAtMatches | backend/app/api/resume.py:235 | the phone matcher succeeds at `i` iff a phone form occurs there (with the longest country code that works, or without one), and any such form at `i` is the one it finds |
| Contact.LongestCodeExample | backend/app/api/resume.py:235 | on "+1234567890123" the only phone match at the start is all 14 characters, with a three-digit code, not the 12 characters a one-digit code would give |
| Contact.Phone | backend/app/api/resume.py:235-236 | a phone number found is at least ten characters long |
| Contact.PhoneIsLeftmost | backend/app/api/resume.py:235-236 | the phone number is the phone form at the leftmost index where one occurs, the only one there; there is none iff no phone form occurs |
| Contact.Headline | backend/app/api/resume.py:238-242 | a headline exists iff there are at least two non-blank lines, and it is non-empty and at most 100 characters long |
| Contact.HeadlineIsSecondLine | backend/app/api/resume.py:239-242 | the headline is a prefix of the second non-blank stripped line: the whole line up to 100 characters, else its first 100 |
| Resume.ParseResume | backend/app/api/resume.py:229-263 | the extracted_data record; stated by the Resume.Profile lemmas below |
| Resume.ProfileExperience | backend/app/api/resume.py:249-252 | work_experiences exists iff the experience section has lines, and is then parse_experience of that section |
| Resume.ProfileEducation | backend/app/api/resume.py:249-255 | educations exists iff the education section has lines, and is then parse_education of it |
| Resume.ProfileProjects | backend/app/api/resume.py:249-258 | projects exists iff the projects section has lines, and is then parse_projects of it |
| Resume.ProfileSkills | backend/app/api/resume.py:249-263 | primary_skills and tools_libraries exist together, iff the skills section has lines; they are the ", "-joins of the section's first five skills and of the rest, and read back as those skills |
| Resume.ProfileContact | backend/app/api/resume.py:232-246 | e-mail and phone exist iff their patterns match somewhere; the headline iff two non-blank lines exist; only the four link keys are merged |
| Resume.NoHeadersNoSections | backend/app/api/resume.py:249-263 | text without header lines gets none of the section fields |
| Resume.EmptyResume | backend/app/api/resume.py:229-263 | the empty text gives an empty profile |

## Left out

- PDF text extraction and the endpoint around it are not modelled (lines
  217-228 and 265-271). That covers the file-extension check, pypdf, FastAPI
  routing, the auth dependency, the response wrapper and the catch-all HTTP 500
  handler. `Resume.ParseResume` starts from the extracted text and returns the
  `extracted_data` record.
- `upload_resume` (lines 273-280) is not modelled: it reads the wall clock and only builds a
  placeholder URL.
- Character classes use their ASCII parts only:
  - `\w` is `[A-Za-z0-9_]` and `\d` is `[0-9]`.
  - `\s` and str.isspace are tab through carriage return, 0x1C-0x1F and the
    space.
  - lower() and re.IGNORECASE fold only A-Z.

  So non-ASCII letters, digits and spaces are treated as other characters. The
  Kelvin sign and the long s, which re.IGNORECASE folds onto ASCII letters, do
  not match "k" or "s" here.
- The portfolio link is not modelled. The source only mentions it in a comment
  and extracts nothing for it.
- The link keys are kept in their own `links` map in `Resume.Profile`, not
  merged into the same dictionary. `Resume.ProfileContact` shows that only the
  four link keys occur, and none of them clashes with another field.
- Dictionary entries are datatypes with one field per key. The loops' `{}` and
  `None` "no open entry" states are `Option.None`.
- Resume.ProfileContact: states the phone number's presence through the ghost
  predicate `Contact.IsPhoneMatch`, whose existential over layouts cannot be
  compiled. The exact match is pinned by `Contact.PhoneIsLeftmost`: a phone
  form with the longest working country code, unique at its index.
- Skills.SkillBuckets: states the buckets by what they read back as, not
  character for character. The exact strings are `", ".join` of the two slices,
  which `Skills.ParseJoined` pins down for clean skill lists.
