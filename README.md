# Feature extraction of OMA_FYP_Product, modelled in Dafny

This project models the feature-extraction core of OMA_FYP_Product, an Arabic tweet sentiment classifier
(`src/feature_extraction`). For each tweet the pipeline does the following:

- replaces emojis and emoticons with sentinel tokens;
- counts `?`, `!` and `?!` marks;
- replaces URLs and mentions with sentinels and pads digit and Latin runs with spaces;
- splits the text into tokens, routing hashtags to their own word lists and counting elongated tokens;
- computes a negation mask over the punctuation-retaining words.

All tweets of a batch then go to the MADAMIRA morphological analyser as one request, one segment per tweet
and per hashtag. Lemmas and POS tags are read back by position. Each tweet becomes a feature vector:

- lexicon word and hashtag polarity votes;
- punctuation, elongation, negation-switch, emoticon, mention and URL features;
- fifteen POS categories;
- word and character n-gram indicators.

The vectors are written as sparse LibSVM lines. The lexicon loaders become per-line parsers over sequences
of lines.

There is one module per Java file, plus the shared module `Text`:

| module | file | models |
|---|---|---|
| `Text` | text.dfy | Option, character classes, Java `split`, `indexOf`, runs and pieces of text, decimal rendering |
| `Negation` | negation.dfy | Negation.java |
| `Punctuation` | punctuation.dfy | PunctuationExtractor.java |
| `Normalizer` | normalizer.dfy | Normalizer.java |
| `EmoticonSets` | emoticon_sets.dfy | the emoticon sets and the polarity of EmoticonExtractor.java |
| `Emoticons` | emoticons.dfy | the matching and replacement of EmoticonExtractor.java |
| `Preprocessor` | preprocessor.dfy | Preprocessor.java |
| `NGrams` | ngrams.dfy | NGramExtractor.java |
| `Lexicon` | lexicon.dfy | LexiconMapping.java |
| `PolarityInfo` | polarity.dfy | PolarityInfo.java |
| `XMLParser` | xmlparser.dfy | XMLParser.java, over abstract segment and word records |
| `Features` | features.dfy | FeatureExtractor.java |

How the Java is modelled:

- Every Java loop is a Dafny `method` with a `for` or `while` loop. Its `ensures` equates its result with a pure specification function.
- The lemmas state the source's properties about those functions.
- An exception that the Java lets escape, or that a catch block swallows, is the `None` of an `Option` result.
- The static tables and vocabularies of `LexiconMapping` and `NGramExtractor` are parameters.
- Every `HashSet` iteration order is an explicit sequence parameter. This covers the emoticon alternation order and the n-gram vocabularies.

## Model

| member | source | states |
|---|---|---|
| NGrams.Concat | src/feature_extraction/NGramExtractor.java:67-72 | the StringBuilder loop returns words[start..end) joined by single spaces, and the empty string when start >= end |
| NGrams.Ngrams | src/feature_extraction/NGramExtractor.java:51-57 | max(0, \|words\| - n + 1) n-grams over the Java split of the text, the i-th being words[i..i+n) joined by spaces, left to right |
| NGrams.CharNgramsOf | src/feature_extraction/NGramExtractor.java:81-87 | max(0, \|str\| - n + 1) substrings, the i-th being str[i..i+n), each of length exactly n, spaces included |
| NGrams.ConcatSmallWindows | src/feature_extraction/NGramExtractor.java:67-72 | concat(words, s, s) is empty and concat(words, s, s+1) is words[s] |
| NGrams.UnigramsAreWords | src/feature_extraction/NGramExtractor.java:51-57 | the 1-grams are the split word list itself |
| NGrams.WordsHaveNoSpace | src/feature_extraction/NGramExtractor.java:53 | no word of a split on spaces holds a space |
| NGrams.GramSplitsIntoWindow | src/feature_extraction/NGramExtractor.java:51-72 | splitting the i-th n-gram on spaces gives back its window words[i..i+n), so the gram determines its words |
| NGrams.CharNgramsOverlap | src/feature_extraction/NGramExtractor.java:83-85 | consecutive character n-grams overlap in n - 1 characters |
| Text.DropTrailingEmpty | src/feature_extraction/NGramExtractor.java:53 | String.split drops the trailing empty fields and only those: the result is a prefix of the fields, ends in a non-empty field, and every field removed is empty |
| Text.SplitJoin | src/feature_extraction/NGramExtractor.java:53-71 | splitting words joined by single spaces on spaces gives the words back, when none holds a space |
| Text.IndexOf | src/feature_extraction/Normalizer.java:25-42 | String.indexOf(pattern, from): -1 when the pattern does not occur from there, else its first occurrence |
| Text.IndexOfChar | src/feature_extraction/Normalizer.java:29-30 | String.indexOf(char, from): -1 or the first occurrence from there |
| Text.FindRun | src/feature_extraction/Normalizer.java:108-116 | one `matcher.find()` of a character-class run: the first class character from the position and the end of its maximal run |
| Text.SpacedText | src/feature_extraction/XMLParser.java:52-56 | the loop adding every word followed by a space builds `Spaced` |
| Text.NatToString | src/feature_extraction/FeatureExtractor.java:69 | the decimal rendering of a count is a non-empty string of ASCII digits, with no leading zero except for 0 itself |
| Text.NatToStringValue | src/feature_extraction/FeatureExtractor.java:69 | the digits of the rendering denote the number rendered: `DecimalValue(NatToString(n)) == n` |
| Text.NatToStringInjective | src/feature_extraction/XMLParser.java:58 | distinct numbers render differently, so the ids "tweet" + i of different tweets differ |
| Negation.IsNegated | src/feature_extraction/Negation.java:13-49 | the two nested loops return exactly the flags of the scanner specification `Mask`; never more flags than words; a non-empty input yields a first flag that is false |
| Negation.MaskLengthBound | src/feature_extraction/Negation.java:18-47 | at most one flag per word, in or out of a scope |
| Negation.FullLengthWithoutBareClosers | src/feature_extraction/Negation.java:28-41 | when no word is a punctuation-only closer, there is exactly one flag per word |
| Negation.BareCloserDropsFlag | src/feature_extraction/Negation.java:29-37 | a negation term followed by "." gives the single flag [false]: the bare closer appends nothing |
| Negation.OutsideScope | src/feature_extraction/Negation.java:43-46 | outside a scope, every word that is not a negation term is flagged false and the scan goes on outside a scope |
| Negation.InsideScope | src/feature_extraction/Negation.java:24-41 | inside a scope, every word without a closing mark is flagged true, negation terms included, and the scope stays open |
| Negation.NegationScope | src/feature_extraction/Negation.java:20-42 | a negation term is flagged false; the words after it up to the first word with a closing mark are flagged true; that word is flagged true only when it has a letter, digit or space; scanning then resumes outside a scope |
| Negation.UnclosedScope | src/feature_extraction/Negation.java:24-42 | a scope that no word closes runs to the end of the input, every word after the term flagged true |
| Negation.ArabicQuestionMarkDoesNotClose | src/feature_extraction/Negation.java:25 | the closing class holds U+00BF and not the Arabic question mark U+061F, so a term followed by U+061F gives [false, true] |
| Punctuation.GetPunctuation | src/feature_extraction/PunctuationExtractor.java:12-36 | the "?" count is the number of characters '?' or U+061F, the "!" count the number of '!', and the "?!" count the number of leftmost non-overlapping pairs (`PairCount`); three independent scans |
| Punctuation.PairCountBound | src/feature_extraction/PunctuationExtractor.java:27-31 | the pair count never exceeds the "?" count nor the "!" count |
| Punctuation.PairExamples | src/feature_extraction/PunctuationExtractor.java:27-31 | "?!?" holds one pair, "?!?!" two, and "?" followed by U+061F none |
| Punctuation.ReplaceAllPunctuationsWithSpace | src/feature_extraction/PunctuationExtractor.java:44-78 | the output is the mode's specification `Replaced(tweet, skipSome)` |
| Punctuation.KeepSomeMarks | src/feature_extraction/PunctuationExtractor.java:48-65 | retain-some mode: each maximal run of the class with marks, cut after every kept mark, each piece followed by one space |
| Punctuation.SplitAfterMarks | src/feature_extraction/PunctuationExtractor.java:52-63 | the inner loop cuts one run after each kept mark and after its tail, each piece followed by a space |
| Punctuation.StripMarks | src/feature_extraction/PunctuationExtractor.java:69-75 | strip-all mode: each maximal run of [U+0621-U+064A U+0660-U+0669 space 0-9 a-zA-Z] followed by one space, in order |
| Punctuation.ChunksFlatten | src/feature_extraction/PunctuationExtractor.java:56-63 | cutting a run after its marks loses and adds no character: the pieces concatenate back to the run |
| Punctuation.ChunksOfRunsFlatten | src/feature_extraction/PunctuationExtractor.java:51-64 | the pieces of all runs concatenate back to the runs |
| Punctuation.StripKeepsLettersAndDigits | src/feature_extraction/PunctuationExtractor.java:69-75 | strip-all mode keeps every Arabic letter, Arabic-Indic digit, ASCII digit and Latin letter, in order |
| Punctuation.RetainKeepsClass | src/feature_extraction/PunctuationExtractor.java:48-64 | retain-some mode keeps, in order, every character of any class of retained characters other than space |
| Punctuation.StripLeavesWordChars | src/feature_extraction/PunctuationExtractor.java:69-75 | every character of the strip-all output is a class character or a space |
| Punctuation.RetainSeparatesMarks | src/feature_extraction/PunctuationExtractor.java:48-64 | every character of the retain-some output is retained, and every kept mark in it is directly followed by a space |
| Punctuation.ChunksShape | src/feature_extraction/PunctuationExtractor.java:56-63 | each piece of a run holds a kept mark at most as its last character |
| Punctuation.SpacedMarksFollowed | src/feature_extraction/PunctuationExtractor.java:58-62 | joining such pieces, each followed by a space, leaves every kept mark followed by a space |
| Punctuation.ReplacedEmpty | src/feature_extraction/PunctuationExtractor.java:46-76 | the replacement is empty exactly when the tweet has no character the pass keeps |
| Normalizer.SpanEnd | src/feature_extraction/Normalizer.java:29-41 | where the text after a URL or mention resumes: the first space or newline after it when a space follows, the end of the text when neither follows, and an error exactly when a newline follows but no space; nothing between is a break |
| Normalizer.Delimiter | src/feature_extraction/Normalizer.java:29-41 | the two indexOf calls and their comparison yield the resume position of `SpanEnd`, |tweet| when neither break follows and -1 when only a newline does |
| Normalizer.NormalizeURLs | src/feature_extraction/Normalizer.java:20-51 | the two passes return `NormalizedURLs`: the http:// pass, then the https:// pass over its result, or the error of either |
| Normalizer.ReplaceUrls | src/feature_extraction/Normalizer.java:25-48 | one URL pass computes `PassFrom` from position 0: each URL replaced by the URL token up to the break that ends it, the rest copied |
| Normalizer.NormalizeMentions | src/feature_extraction/Normalizer.java:67-99 | the mention loop returns `NormalizedMentions`: each '@' at the start or after a space or newline replaced by the mention token up to the next break, every other '@' copied |
| Normalizer.MentionTaken | src/feature_extraction/Normalizer.java:73-86 | at a mention, the loop appends the text before it and the token and resumes after it; when only a newline follows, the whole pass fails |
| Normalizer.MentionSkipped | src/feature_extraction/Normalizer.java:88-93 | an '@' inside a word is copied and the search goes on after it |
| Normalizer.MentionBeforeNewlineFails | src/feature_extraction/Normalizer.java:75-90 | "@ali\nhi" makes the mention pass fail: the resume position becomes -1 and the next substring call throws |
| Normalizer.SpanAt | src/feature_extraction/Normalizer.java:28-42 | a span at position ind is replaced by its token and the text resumes at its break, which is kept; an error when only a newline follows |
| Normalizer.SpanFinish | src/feature_extraction/Normalizer.java:45 | when no span starts from some position on, the rest of the text is copied unchanged |
| Normalizer.PassCopy | src/feature_extraction/Normalizer.java:27-45 | positions at which no span starts are copied verbatim |
| Normalizer.NoUrlRemains | src/feature_extraction/Normalizer.java:11-51 | after a successful URL normalisation the text contains neither http:// nor https:// |
| Normalizer.NoUrlFixed | src/feature_extraction/Normalizer.java:11-49 | a text without a URL comes back unchanged |
| Normalizer.UrlsIdempotent | src/feature_extraction/Normalizer.java:20-51 | normalising URLs twice gives the same text as once |
| Normalizer.PassLeavesNoMention | src/feature_extraction/Normalizer.java:72-95 | the mention pass leaves no '@' at the start or after a break |
| Normalizer.NoMentionStartFixed | src/feature_extraction/Normalizer.java:72-95 | a text with no '@' at the start or after a break comes back unchanged |
| Normalizer.MentionsIdempotent | src/feature_extraction/Normalizer.java:67-99 | normalising mentions twice gives the same text as once |
| Normalizer.TokenIsArabic | src/feature_extraction/Normalizer.java:28-74 | both tokens are non-empty and made of Arabic letters only, so they hold no scheme, '@' or break |
| Normalizer.SpaceRuns | src/feature_extraction/Normalizer.java:106-161 | one padding loop returns `PadRuns`: each maximal run of the class with a space before and after it, and the character right after the run dropped (`start = matcher.end()+1`) |
| Normalizer.NormalizeNumbers | src/feature_extraction/Normalizer.java:106-138 | ASCII digit runs padded first, then Arabic-Indic digit runs in the result |
| Normalizer.NormalizeLatinLetters | src/feature_extraction/Normalizer.java:145-161 | each maximal [a-zA-Z] run padded, the following character dropped |
| Normalizer.PadStep | src/feature_extraction/Normalizer.java:112-116 | one match: the text before the run, then " run ", then the text after the dropped character |
| Normalizer.PadTail | src/feature_extraction/Normalizer.java:117-119 | after the last run the rest is copied, and nothing when the dropped character was the last |
| Normalizer.PadNoRuns | src/feature_extraction/Normalizer.java:112-119 | a text without a character of the class is unchanged |
| Normalizer.NumberDropsNextChar | src/feature_extraction/Normalizer.java:115 | "12a" becomes " 12 ": the 'a' after the run is lost |
| Normalizer.PadKeepsRuns | src/feature_extraction/Normalizer.java:112-119 | padding keeps every character of the class, in order |
| Normalizer.PadKeepsOther | src/feature_extraction/Normalizer.java:112-119 | a class disjoint from the padded one, without the space, keeps all its characters when none of them directly follows a run |
| Normalizer.NumbersKeepEasternDigits | src/feature_extraction/Normalizer.java:106-138 | when no Arabic-Indic digit directly follows an ASCII digit, every Arabic-Indic digit survives both passes, in order |
| EmoticonSets.GetAllEmoticons | src/feature_extraction/EmoticonExtractor.java:130-136 | the union built by the three addAll calls holds exactly the positive, negative and neutral emoticons |
| EmoticonSets.EmoticonPolarity | src/feature_extraction/EmoticonExtractor.java:59-69 | Positive exactly for the positive set, else Neutral exactly for the neutral set, else Negative |
| EmoticonSets.UnknownIsNegative | src/feature_extraction/EmoticonExtractor.java:66-68 | a string in none of the sets is Negative |
| EmoticonSets.PolarityOfEmoticon | src/feature_extraction/EmoticonExtractor.java:15-69 | for an emoticon, the polarity names exactly the set it was listed in, the three arrays being pairwise disjoint |
| EmoticonSets.NeutralDisjoint | src/feature_extraction/EmoticonExtractor.java:15-30 | no neutral emoticon is listed as positive or negative |
| EmoticonSets.PositiveDisjoint | src/feature_extraction/EmoticonExtractor.java:15-30 | no positive emoticon is listed as negative |
| EmoticonSets.EmoticonLength | src/feature_extraction/EmoticonExtractor.java:15-30 | every emoticon has two to four characters, so none is empty |
| EmoticonSets.PrefixesOfNoseSmile | src/feature_extraction/EmoticonExtractor.java:16-23 | the only emoticons that are prefixes of ":o)" are the neutral ":o" and the positive ":o)" itself |
| Emoticons.OrderNonEmpty | src/feature_extraction/EmoticonExtractor.java:80-86 | an iteration order of the emoticon set lists no empty alternative |
| Emoticons.FirstAlternative | src/feature_extraction/EmoticonExtractor.java:80-88 | the alternation tries the alternatives in iteration order: the result is the first one that occurs at the position, or none |
| Emoticons.Find | src/feature_extraction/EmoticonExtractor.java:90 | one `matcher.find()`: the leftmost position from `from` on where some alternative occurs, with the alternative that wins there, or no match at all |
| Emoticons.GetEmoticons | src/feature_extraction/EmoticonExtractor.java:76-94 | the matches, in text order, of the leftmost non-overlapping scan, each search resuming after the previous match (`MatchesFrom`) |
| Emoticons.NormalizeAllEmoticons | src/feature_extraction/EmoticonExtractor.java:101-124 | the text with every match of the same scan replaced by " ايموتيكونتوكن " and the text between matches copied (`ReplacedFrom`) |
| Emoticons.MatchesAreAlternatives | src/feature_extraction/EmoticonExtractor.java:90-92 | every match is one of the alternatives |
| Emoticons.MatchesAreEmoticons | src/feature_extraction/EmoticonExtractor.java:80-92 | with an iteration order of the emoticon set, every extracted string is an emoticon |
| Emoticons.TextIsGapsAndMatches | src/feature_extraction/EmoticonExtractor.java:117-121 | the tweet is the text between matches woven with the matches: the scan loses and adds nothing |
| Emoticons.ReplacedIsGapsAndTokens | src/feature_extraction/EmoticonExtractor.java:101-124 | the replaced text is the same gaps woven with one token per extracted emoticon, so there are as many tokens as `getEmoticons` finds |
| Emoticons.NoMatchFixed | src/feature_extraction/EmoticonExtractor.java:117-121 | a tweet with no match comes back unchanged |
| Emoticons.FirstAlternativeWins | src/feature_extraction/EmoticonExtractor.java:80-92 | with ":o" before ":o)" in the iteration order, ":o)" yields the single match ":o": the first alternative wins, not the longest |
| Emoticons.NoseSmileAtStart | src/feature_extraction/EmoticonExtractor.java:80-90 | in that order the match at position 0 of ":o)" is ":o" |
| Emoticons.MatchesSkip | src/feature_extraction/EmoticonExtractor.java:90 | positions where no alternative occurs add no match |
| Emoticons.ReplacedCopy | src/feature_extraction/EmoticonExtractor.java:118-121 | text where no alternative occurs is copied verbatim |
| Preprocessor.ExtractWords | src/feature_extraction/Preprocessor.java:140-159 | the loop returns the space-separated pieces in order; none is empty or holds a space, and together they are the string without its spaces |
| Preprocessor.ExtractStep | src/feature_extraction/Preprocessor.java:147-153 | one space found: the piece before it is kept when non-empty, and the search resumes after the space |
| Preprocessor.ExtractTail | src/feature_extraction/Preprocessor.java:155-157 | after the last space, the rest is the last piece when it is non-empty |
| Preprocessor.Route | src/feature_extraction/Preprocessor.java:88-116 | one token, as `AddToken` states: appended to the originals; counted when the elongation remover changed it; a token starting with '#' adds the hashtag word to both word lists and its strip-all words to the hashtags; any other token adds its retain-some words and its strip-all words; an empty result of the remover fails (charAt(0) throws) |
| Preprocessor.NextToken | src/feature_extraction/Preprocessor.java:64-86 | the two inner loops skip spaces, newlines and tabs and then read a maximal run free of them; the index strictly increases |
| Preprocessor.TokenStep | src/feature_extraction/Preprocessor.java:62-117 | one iteration of the outer loop routes the next token and leaves the rest of the text to the remaining iterations |
| Preprocessor.Tokenize | src/feature_extraction/Preprocessor.java:55-118 | the tokenizer loop routes the maximal blank-free runs of the text, in order, through `AddToken` (`Fold`) |
| Preprocessor.Preprocess | src/feature_extraction/Preprocessor.java:24-133 | the passes in their fixed order, as `Preprocessing` states: emojis, emoticons, punctuation counts on the emoticon-free text, URLs only when hasURL holds, mentions only when hasMention holds on that result, digits, Latin letters, then the tokenizer; the flags are those of the words that keep some punctuation |
| Preprocessor.FoldCounts | src/feature_extraction/Preprocessor.java:88-105 | after the loop the originals are exactly the tokens, the elongation count is the number of tokens the remover changed, and there is one hashtag list per token whose normalised form starts with '#' |
| Preprocessor.FoldFails | src/feature_extraction/Preprocessor.java:91-98 | the loop fails exactly when the remover maps some token to the empty string |
| Preprocessor.PreprocessedWords | src/feature_extraction/Preprocessor.java:28-131 | the originals of a preprocessed tweet are the tokens of its normalised text, each non-empty and blank-free; the elongation and hashtag counts are those of `FoldCounts` |
| Preprocessor.HashtagRouting | src/feature_extraction/Preprocessor.java:98-105 | a hashtag adds exactly one hashtag word to each word list and one strip-all word list to the hashtags |
| Preprocessor.FullStopKeptWithPunctuation | src/feature_extraction/Preprocessor.java:106-115 | the token "." adds "." to the words that keep punctuation and nothing to the normalised words, so the two lists can differ in length |
| Preprocessor.FullStopPieces | src/feature_extraction/Preprocessor.java:108-113 | the retain-some words of "." are ["."], its strip-all words none |
| PolarityInfo.GetPolarity | src/feature_extraction/PolarityInfo.java:166-178 | Positive exactly when the first score exceeds the second, Negative exactly when the second exceeds the first, and no polarity on a tie |
| PolarityInfo.SignPolarity | src/feature_extraction/PolarityInfo.java:71-108 | a lexicon score above 0 votes positive, below 0 negative, and 0 adds nothing |
| PolarityInfo.GetWordsInfo | src/feature_extraction/PolarityInfo.java:17-116 | the two tallies count the positive and negative votes of the positions, ArSenL first, then AraSenTi, then DAHL, flipped when negated, with the missing-flag and missing-word defaults; together they never exceed the number of lemmas |
| PolarityInfo.GetEmoticonsInfo | src/feature_extraction/PolarityInfo.java:128-157 | the tallies add the votes of the emoticons by their set and of the emojis by their table entry; together they never exceed the number of emoticons and emojis |
| PolarityInfo.CountBound | src/feature_extraction/PolarityInfo.java:23-111 | each position adds at most one to one tally |
| PolarityInfo.CountOpposite | src/feature_extraction/PolarityInfo.java:40-52 | opposite votes swap the two tallies |
| PolarityInfo.InvertedMaskSwapsTallies | src/feature_extraction/PolarityInfo.java:40-107 | when the flags cover every position, flipping every flag swaps the positive and negative word tallies |
| PolarityInfo.ArSenLDecides | src/feature_extraction/PolarityInfo.java:38-54 | a lemma found in ArSenL is decided by ArSenL alone, whatever the normalised words and other lexicons say; an ArSenL tie adds nothing |
| PolarityInfo.AraSenTiBeforeDahl | src/feature_extraction/PolarityInfo.java:55-109 | otherwise the normalised word is voted by AraSenTi when listed there, by DAHL only when absent from AraSenTi, and a zero AraSenTi score adds nothing |
| PolarityInfo.VotesThatAddNothing | src/feature_extraction/PolarityInfo.java:132-152 | a neutral emoticon, an emoji absent from the table and a tied emoji add nothing; a string that is no emoticon votes negative |
| PolarityInfo.SwappedScores | src/feature_extraction/PolarityInfo.java:166-178 | exchanging the two scores gives the opposite polarity |
| Lexicon.ArSenLFields | src/feature_extraction/LexiconMapping.java:54-74 | the loop over `counter` collects the first four ';'-separated fields of the line as word, positive, negative and confidence text; characters after a fourth ';' go nowhere |
| Lexicon.AraSenTiFields | src/feature_extraction/LexiconMapping.java:115-129 | the word is the text before the first space and the score text is every non-space character after it, concatenated |
| Lexicon.DahlFields | src/feature_extraction/LexiconMapping.java:189-205 | the word is tab-separated column 0 and the score column 2; other columns are dropped |
| Lexicon.RemoveSpaces | src/feature_extraction/LexiconMapping.java:229-236 | a negation line with its spaces removed |
| Lexicon.ArSenLMapping | src/feature_extraction/LexiconMapping.java:43-95 | the map the file's lines build with the ArSenL rule, ignored lines skipped, and no map at all when a score does not parse |
| Lexicon.AraSenTiMapping | src/feature_extraction/LexiconMapping.java:104-140 | map.put of every non-ignored line, later lines overwriting earlier ones; no map when a score does not parse |
| Lexicon.DahlMapping | src/feature_extraction/LexiconMapping.java:180-214 | the same for the DAHL lines |
| Lexicon.EmojiMapping | src/feature_extraction/LexiconMapping.java:150-171 | the first line skipped, then every line mapping comma column 0 to the scores [column 2, column 1]; no map when a line has fewer than three columns or a score does not parse |
| Lexicon.NegationTerms | src/feature_extraction/LexiconMapping.java:221-246 | the negation list has at most one term per line and no term holds a space |
| Lexicon.NegationList | src/feature_extraction/LexiconMapping.java:221-246 | the list the loop builds: every line after the first that is not empty and does not start with '/', its spaces removed, in file order |
| Lexicon.PutAllFails | src/feature_extraction/LexiconMapping.java:111-132 | the AraSenTi loop (and likewise the emoji and DAHL loops) yields no map exactly when some line throws |
| Lexicon.PutMostConfidentFails | src/feature_extraction/LexiconMapping.java:76-78 | the ArSenL loader yields no map exactly when some line throws |
| Lexicon.PutAllKeys | src/feature_extraction/LexiconMapping.java:111-132 | the words of the map built by the AraSenTi, emoji or DAHL loop are exactly the words of its entry lines |
| Lexicon.LastLineWins | src/feature_extraction/LexiconMapping.java:111-132 | in the AraSenTi, emoji and DAHL loops a word maps to the value of its last line: later duplicates overwrite earlier ones |
| Lexicon.MostConfidentKeys | src/feature_extraction/LexiconMapping.java:80-83 | the words of the ArSenL map are exactly the words of its entry lines |
| Lexicon.MostConfidentLineWins | src/feature_extraction/LexiconMapping.java:80-83 | an ArSenL word maps to the entry of a line with the highest confidence, the earliest such line on ties |
| Lexicon.ShortArSenLLineFails | src/feature_extraction/LexiconMapping.java:59-78 | a line that is not ignored and has fewer than three ';' leaves a score field empty, and parsing the empty text throws |
| Lexicon.ArSenLIgnoresExtraFields | src/feature_extraction/LexiconMapping.java:59-74 | text after a fourth ';' does not change the entry |
| XMLParser.Attribute | src/feature_extraction/XMLParser.java:58-74 | the id attribute of a segment is "tweet" followed by the tweet index, or "hashtag" followed by the hashtag index within its tweet |
| XMLParser.TweetSegments | src/feature_extraction/XMLParser.java:46-79 | one tweet adds one segment, plus one per hashtag when hashtags are lemmatised |
| XMLParser.InputXML | src/feature_extraction/XMLParser.java:43-79 | the loops emit `InputSegments`: for each tweet in order, its segment of normalised words each followed by a space, then with `withHashtags` one segment per hashtag |
| XMLParser.OffsetCounts | src/feature_extraction/XMLParser.java:46-79 | the segments of the first m tweets number `Offset(m)`, the sum of the tweets' widths |
| XMLParser.SegmentCount | src/feature_extraction/XMLParser.java:46-79 | the request has n + Σ\|hashtags\| segments with hashtags, and n without |
| XMLParser.SegmentsPrefix | src/feature_extraction/XMLParser.java:46-79 | later tweets only append segments: the segments of the first a tweets begin those of the first b |
| XMLParser.OffsetGrows | src/feature_extraction/XMLParser.java:46-79 | the segments of earlier tweets come before those of later ones, without overlap |
| XMLParser.SegmentAt | src/feature_extraction/XMLParser.java:46-79 | segment j of tweet m is segment Offset(m) + j of the request |
| XMLParser.OwnSegments | src/feature_extraction/XMLParser.java:46-79 | all segments of tweet m sit, in order, from Offset(m) on |
| XMLParser.TweetLayout | src/feature_extraction/XMLParser.java:50-60 | segment Offset(m) has id "tweet" m and the tweet's spaced normalised words |
| XMLParser.HashtagLayout | src/feature_extraction/XMLParser.java:62-77 | segment Offset(m) + 1 + n has id "hashtag" n and the spaced words of hashtag n of tweet m |
| XMLParser.HashtagIdsRepeat | src/feature_extraction/XMLParser.java:66-74 | the first hashtag segments of two different tweets both have the id "hashtag0": ids are not unique, correlation is by position |
| XMLParser.Cleaned | src/feature_extraction/XMLParser.java:153-162 | the cleaned lemma is the longest prefix of the lemma without '_', stopping at the first '_', and the whole lemma exactly when it has none |
| XMLParser.CleanLemma | src/feature_extraction/XMLParser.java:155-162 | the copy loop with its break computes `Cleaned` |
| XMLParser.SegmentPos | src/feature_extraction/XMLParser.java:172-177 | the POS tally of a segment counts every word once, so its counts sum to the number of words |
| XMLParser.ReadTweet | src/feature_extraction/XMLParser.java:134-181 | the word loop of a tweet segment returns one lemma per word and the tally of the tags `Tags` assigns |
| XMLParser.ReadHashtag | src/feature_extraction/XMLParser.java:185-220 | the word loop of a hashtag segment returns one lemma per word |
| XMLParser.ReadHashtags | src/feature_extraction/XMLParser.java:184-222 | n hashtag segments read from `from` on, and an exception when the response has fewer |
| XMLParser.TagStep | src/feature_extraction/XMLParser.java:145-177 | the tag of word i is the pos of its second morph_feature_set, or the previous word's tag when it has none |
| XMLParser.StaleTag | src/feature_extraction/XMLParser.java:136-177 | an unanalysed word takes its surface form as lemma and is tallied under the tag of the previous word, "" for the first word of a segment |
| XMLParser.ReadStep | src/feature_extraction/XMLParser.java:133-225 | one tweet consumes its segment and, with hashtags, its hashtag segments; a missing segment ends the reading with what was added so far |
| XMLParser.ReadTweetAt | src/feature_extraction/XMLParser.java:133-224 | the body of the outer loop reads a tweet at segment k and says whether the loop goes on |
| XMLParser.OutputXML | src/feature_extraction/XMLParser.java:110-234 | the loops return `OutputAnalysis`: the lemmas, tallies and hashtag lemmas read by position from the response |
| XMLParser.CompleteRequest | src/feature_extraction/XMLParser.java:131-224 | a response is complete when it has at least as many segments as the request |
| XMLParser.CompleteTweetLemmas | src/feature_extraction/XMLParser.java:131-182 | with a complete response, tweet m gets the lemmas of segment m + Σ_{j<m} widths, the segment inputXML wrote it to |
| XMLParser.CompleteTweetPos | src/feature_extraction/XMLParser.java:131-182 | and the tally of that same segment |
| XMLParser.CompleteHashtagCount | src/feature_extraction/XMLParser.java:183-224 | with a complete response, hashtags[m] has one entry per hashtag of tweet m |
| XMLParser.CompleteHashtags | src/feature_extraction/XMLParser.java:183-224 | hashtag n of tweet m gets the lemmas of the segment right after the tweet's and its earlier hashtags' segments |
| XMLParser.CompleteOutput | src/feature_extraction/XMLParser.java:180-224 | with a complete response, lemmas and pos have one entry per tweet, hashtags too with `withHashtags` and none without |
| XMLParser.ShortOutput | src/feature_extraction/XMLParser.java:131-229 | with a response shorter than the request, some tweet lacks its lemmas or its hashtag vector |
| XMLParser.IndexFrom | src/feature_extraction/XMLParser.java:244-245 | String.indexOf from a position: -1 or the first occurrence from there |
| XMLParser.FixNamespace | src/feature_extraction/XMLParser.java:240-255 | the edit computes `FixedNamespace`, None when substring throws |
| XMLParser.NamespaceInserted | src/feature_extraction/XMLParser.java:244-247 | the namespace attribute is inserted right before the first '>' at or after "<madamira_input", and the rest of the content is unchanged |
| XMLParser.NamespaceFails | src/feature_extraction/XMLParser.java:244-247 | the edit throws exactly when no '>' follows the start of "<madamira_input" (the whole text when it is absent) |
| XMLParser.CompleteLengths | src/feature_extraction/XMLParser.java:133-225 | reading tweets m.. from segment k of a response long enough for them gives one lemma vector and one tally per tweet, and one hashtag vector per tweet exactly with hashtags |
| XMLParser.ReadLemmaAt | src/feature_extraction/XMLParser.java:141-182 | tweet i's lemmas are those of the segment at k plus the widths of the tweets before it |
| XMLParser.ReadPosAt | src/feature_extraction/XMLParser.java:165-182 | and its tally is that segment's tally |
| XMLParser.ReadHashtagsAt | src/feature_extraction/XMLParser.java:183-223 | tweet i's hashtag vector holds the lemmas of the segments right after its own, one per hashtag |
| XMLParser.ShortResponse | src/feature_extraction/XMLParser.java:131-229 | when the response ends before the tweets' segments do, the reading stops with some tweet missing its lemmas or its hashtags |
| Features.IndicatorAt | src/feature_extraction/FeatureExtractor.java:332-339 | entry j of an indicator block is 0 or 1, and 1 exactly when vocabulary entry j is among the tweet's n-grams |
| Features.AddIndicators | src/feature_extraction/FeatureExtractor.java:332-339 | one vocabulary loop appends exactly the indicator block of that vocabulary to the features |
| Features.OutputNgramFeatures | src/feature_extraction/FeatureExtractor.java:328-371 | the four loops return `WordNgramFeatures`: the unigram, bigram, trigram and fourgram blocks in that order |
| Features.WordNgramAt | src/feature_extraction/FeatureExtractor.java:328-371 | the word n-gram vector has one 0/1 entry per vocabulary entry, and entry j is 1 exactly when the vocabulary n-gram it stands for occurs among the tweet's n-grams of that size |
| Features.OutputCharNgramFeatures | src/feature_extraction/FeatureExtractor.java:378-411 | the three loops return `CharNgramFeatures`: the character trigram, fourgram and fivegram blocks |
| Features.CharNgramAt | src/feature_extraction/FeatureExtractor.java:378-411 | entry j of the character n-gram vector is 1 exactly when its vocabulary entry occurs among the tweet's character n-grams of that size |
| Features.CountSwitches | src/feature_extraction/FeatureExtractor.java:130-137 | the loop counts `Switches` of the negation mask |
| Features.SwitchesCount | src/feature_extraction/FeatureExtractor.java:131-136 | the switch count is the number of positions i ≥ 1 where the mask turns from false to true |
| Features.NegativeHashtags | src/feature_extraction/FeatureExtractor.java:103-120 | at most one negative hashtag per hashtag |
| Features.HashtagTallies | src/feature_extraction/FeatureExtractor.java:103-120 | the loop returns the number of negative hashtags, and every hashtag counts as positive or as negative |
| Features.NegativeHashtagsCount | src/feature_extraction/FeatureExtractor.java:105-118 | negHashtags is the number of hashtags with more negative than positive words under an all-false mask; ties count as positive |
| Features.CountIfSize | src/feature_extraction/FeatureExtractor.java:105-118 | counting with a test over 0..n-1 gives the size of the set of indices that pass it |
| Features.PosVectorAt | src/feature_extraction/FeatureExtractor.java:171-310 | POS feature c is the sum of the tallies of the tags of category c |
| Features.PosVectorSpelled | src/feature_extraction/FeatureExtractor.java:171-310 | the fifteen POS features, spelled out tag by tag in the order the source adds them |
| Features.PosNominalSpelled | src/feature_extraction/FeatureExtractor.java:187-218 | nouns, number words, proper nouns, adjectives and adverbs sum the tallies of their tags |
| Features.PosVerbalSpelled | src/feature_extraction/FeatureExtractor.java:219-269 | pronouns, verbs and particles sum the tallies of their tags |
| Features.PosOtherSpelled | src/feature_extraction/FeatureExtractor.java:270-294 | prepositions, abbreviations, punctuation, conjunctions, interjections, digits and Latin read their tags |
| Features.CategoriesDisjoint | src/feature_extraction/FeatureExtractor.java:171-310 | no tag belongs to two categories, so each word adds to at most one POS feature |
| Features.PosTagAdded | src/feature_extraction/FeatureExtractor.java:171-310 | tallying one more word with tag g adds one to the category of g and leaves every other POS feature unchanged |
| Features.UntaggedCountsNowhere | src/feature_extraction/FeatureExtractor.java:171-310 | a word tallied under the empty tag adds to no POS feature |
| Features.AddTally | src/feature_extraction/FeatureExtractor.java:187-189 | a containsKey test and an add give the total plus the tag's tally, 0 when absent |
| Features.NominalTallies | src/feature_extraction/FeatureExtractor.java:171-218 | the nominal tallies are POS features 0 to 4 |
| Features.VerbalTallies | src/feature_extraction/FeatureExtractor.java:176-269 | the verbal tallies are POS features 5 to 7 |
| Features.OtherTallies | src/feature_extraction/FeatureExtractor.java:179-294 | the remaining tallies are POS features 8 to 14 |
| Features.PosFeatures | src/feature_extraction/FeatureExtractor.java:171-310 | the POS block is `PosVector` of the tally |
| Features.Columns | src/feature_extraction/FeatureExtractor.java:96-168 | there are fourteen scalar features |
| Features.OutputScalarFeatures | src/feature_extraction/FeatureExtractor.java:96-168 | the first fourteen features are `ScalarFeatures`: word votes, hashtag tallies, mark counts, elongation, switches, emoticon votes and three presence flags |
| Features.ScalarMeaning | src/feature_extraction/FeatureExtractor.java:96-168 | the scalars copy the preprocessing counts, count switch points and negative hashtags, bound the vote counts and set each flag exactly when its condition holds |
| Features.OutputFeatures | src/feature_extraction/FeatureExtractor.java:89-321 | outputFeatures returns `FeatureVector`, None when a hashtag vector has no normalised counterpart |
| Features.FeatureBlocks | src/feature_extraction/FeatureExtractor.java:89-321 | the vector exists exactly when there are no more lemmatised than normalised hashtags; it has 29 + the n-gram widths entries: the scalars, the POS block, then the word and character n-gram blocks of the spaced lemmas |
| Features.OneTweet | src/feature_extraction/FeatureExtractor.java:43-55 | the body of the tweet loop computes `TweetFeatures`: only the n-gram blocks with onlyNgrams, the full vector otherwise, None when a vector it reads is missing |
| Features.FeatureVectors | src/feature_extraction/FeatureExtractor.java:41-56 | the tweet loop collects the vectors of all tweets, None at the first that throws |
| Features.CollectAll | src/feature_extraction/FeatureExtractor.java:41-56 | collecting succeeds exactly when every step does, and then holds each step's value in order |
| Features.FeaturesShape | src/feature_extraction/FeatureExtractor.java:41-56 | the batch has vectors exactly when every tweet has one; then vector i is tweet i's and all have the batch width |
| Features.TweetSucceeds | src/feature_extraction/FeatureExtractor.java:43-55 | a tweet with lemmas, and without onlyNgrams a tally and a hashtag vector no longer than its normalised hashtags, has a vector |
| Features.TweetFails | src/feature_extraction/FeatureExtractor.java:45-54 | a tweet whose lemmas, or without onlyNgrams whose hashtag vector, are missing makes the loop throw |
| Features.AllTweetsSucceed | src/feature_extraction/FeatureExtractor.java:41-56 | when every tweet has what it reads, the whole batch has vectors |
| Features.SomeTweetFails | src/feature_extraction/FeatureExtractor.java:41-56 | when the lemmas or the hashtag vectors are fewer than the tweets, the batch throws |
| Features.CompleteBatch | src/feature_extraction/FeatureExtractor.java:33-56 | when the response has every segment of the request, every tweet gets a vector |
| Features.ShortBatch | src/feature_extraction/FeatureExtractor.java:33-56 | when the response is short, no vectors are produced |
| Features.TweetVector | src/feature_extraction/FeatureExtractor.java:53-54 | without onlyNgrams, tweet i's vector is outputFeatures of its preprocessing, tally, lemmas and hashtag lemmas |
| Features.TweetAligned | src/feature_extraction/FeatureExtractor.java:33-54 | with a complete response, tweet i's vector is built from the lemmas and tally of the very segment its text was written to, and one hashtag vector per hashtag |
| Features.WriteLine | src/feature_extraction/FeatureExtractor.java:63-72 | the line loop writes `SparseLine`: "0 " and then "j:f " for every nonzero feature among the first nbOfFeatures, None when the vector is shorter |
| Features.WriteFeatures | src/feature_extraction/FeatureExtractor.java:58-74 | the writer loop writes `SparseLines`, with the width of the first vector, and nothing for an empty batch |
| Features.TextSnoc | src/feature_extraction/FeatureExtractor.java:66-71 | one more column of the inner loop appends its entry text exactly when the feature is positive |
| Features.EntriesWellFormed | src/feature_extraction/FeatureExtractor.java:66-71 | every written pair is (j+1, f[j]) with f[j] > 0, and the columns are strictly increasing |
| Features.LookupEntries | src/feature_extraction/FeatureExtractor.java:66-71 | looking up column c among the pairs gives f[c-1], and 0 past the vector |
| Features.SparseRoundTrip | src/feature_extraction/FeatureExtractor.java:66-71 | the pairs written for a vector give the vector back: zeros are exactly the omitted columns |
| Features.SparseLinesShape | src/feature_extraction/FeatureExtractor.java:58-74 | lines are written exactly when the batch is non-empty and no vector is shorter than the first; then line i is "0 " and the pairs of the first nbOfFeatures columns of vector i |
| Features.UniformLines | src/feature_extraction/FeatureExtractor.java:58-74 | a non-empty batch of equal-width vectors is always written, each vector in full |
| Features.SparseLineExample | src/feature_extraction/FeatureExtractor.java:64-72 | the vector [0, 3, 0, 1] is written "0 2:3 4:1 " |
| Features.ExampleEntries | src/feature_extraction/FeatureExtractor.java:66-71 | the vector [0, 3, 0, 1] has the pairs (2, 3) and (4, 1) |
| Features.ExampleRender | src/feature_extraction/FeatureExtractor.java:69 | the pairs (2, 3) and (4, 1) are written "2:3 4:1 " |
| Features.BatchLinesOutcome | src/feature_extraction/FeatureExtractor.java:33-74 | the file is written exactly when there is a tweet and the response is complete, with one line per tweet holding the sparse text of its vector |
| Features.FeatureFileOutcome | src/feature_extraction/FeatureExtractor.java:17-79 | a written file has one line per tweet and every tweet preprocessed; when every tweet preprocesses, the file is written exactly when there is a tweet and the response has every segment of the request |
| Features.GenerateFeatureFile | src/feature_extraction/FeatureExtractor.java:17-79 | the method returns `FeatureFile`, the lines written, None when an exception is caught |

## Behaviour of the code worth noting

- The negation mask can be shorter than the token list. A closing token made only of punctuation advances the scan but gets no flag (Negation.java:28-37; `Negation.FullLengthWithoutBareClosers`, `Negation.BareCloserDropsFlag`).
- The digit and Latin passes drop the character right after each run, because the next search starts at `matcher.end()+1` (Normalizer.java:115, 131, 155; `Normalizer.NumberDropsNextChar`).
- When the analyser's response has fewer segments than the request, `outputXML` stops reading at the missing segment and its catch block returns what was read (XMLParser.java:227-229). The tweet loop of `generateFeatureFile` then throws on the first missing vector, so no line is written (FeatureExtractor.java:42-56; `Features.ShortBatch`).
- An empty batch throws at `elementAt(0)`, and the model reports it as `None`. The `PrintWriter` has already created the output file at that point, so the file is left empty (FeatureExtractor.java:58-60).
- A URL or mention followed by a newline but no later space sets `start` to -1, and the next `substring` throws (Normalizer.java:36-45, 80-90). The model gives `None` for this input (`Normalizer.MentionBeforeNewlineFails`).

## Left out

- File, DOM and `Transformer` I/O in `XMLParser` and `FeatureExtractor`: the request is a sequence of segment records (`XMLParser.InSeg`), the response a sequence of segments of word records, and the written file a sequence of lines. The file names, the XML text and the trailing newline of each printed line are not modelled.
- Madamira.java, the external MADAMIRA analyser: its response is the function parameter `analyse` of `Features.FeatureFile`, so a crash or timeout inside it is seen only through the response it leaves, which may be short.
- EmojiExtractor.java: emoji extraction and emoji replacement are the function parameters `getEmojis` and `normalizeAllEmojis`, because they wrap a library that is not part of this model.
- `ElongationExtractor.removeElongation` is not part of this model. It is the function parameter `removeElongation`; a result whose first character cannot be read is the `None` of the tokenizer.
- `Double.parseDouble`: lexicon scores go through a parser parameter that returns `Option<real>`, `None` where the Java throws. Scores are only compared, never computed with, so no floating-point arithmetic is modelled.
- The file reading in the `LexiconMapping` and `NGramExtractor` static initialisers, and their `IOException` handlers: the lexicon parsers take the file as a sequence of lines, and the tables and n-gram vocabularies are parameters (`PolarityInfo.Tables`, `Features.Vocabularies`).
- `HashSet` iteration order is a parameter. The emoticon alternation order is required only to hold non-empty strings drawn from the emoticon sets, not to list every emoticon exactly once. The n-gram vocabularies are plain sequences, so the column order of the n-gram blocks is whatever order is passed in.
- The POS map `HashMap<String, Integer>` of `outputXML` is a `multiset<string>`: a tag missing from the map and a tag with tally 0 are the same.
- NGrams.CharNgramsOf: takes `n: nat`, so it does not model the exception `charNgrams` throws for a negative `n`; the pipeline only calls it with 3, 4 and 5.
- `fixNamespace` is modelled as a string edit (`XMLParser.FixNamespace`) and is not part of the composition in `Features.FeatureFile`. Its own catch block swallows its failure and leaves the request file as written, and the analyser's handling of either file is not part of this model.
- The `labels` vector of `generateFeatureFile` is filled with zeros and never read. The model writes the literal label `0` on each line.
- Stack traces and `System.out` logging in the catch blocks are not modelled. Only the value left after each handler is.
- The lines of `Features.FeatureFile` are a `None` whenever the Java throws. When an exception interrupts the writer loop, the model does not capture the partial, unflushed contents of the output file.
- The sparse text of a line is not parsed back. The round trip `Features.SparseRoundTrip` is stated on the column/value pairs that the line renders.
- src/classification/Main.java, src/classification/TweetIO.java and the LibSVM classifier: the command-line entry point, input reading and prediction are outside the feature-extraction core.
- Java `String` positions count UTF-16 code units, while a Dafny `string` is a sequence of Unicode scalar values. For text with a character outside the Basic Multilingual Plane (one that survives the emoji pass, which is a parameter here), `length()`, `substring`, `charAt`, `matcher.end()+1` and the `charNgrams` windows differ between the two. For example, `charNgrams(3, s)` returns 2 substrings of a string of two such characters (4 code units), while `NGrams.CharNgramsOf` returns none. A character right after a digit run loses half of its surrogate pair at Normalizer.java:115 but is dropped whole in the model.
