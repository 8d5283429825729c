/**
 Column and table definitions as SQL text, printed and parsed back, and exactly which tables survive that.
 */
module SqlDefinitions {
  import opened Basics
  import opened SqlText

  datatype FieldType = TypeUndefined | TypeInt | TypeText | TypeFloat | TypeBool | TypeTime | TypeBlob

  datatype FieldUse = FieldDefault | FieldKey | DefinitionEnd

  datatype Flags = Flags(primaryKey: bool, notNull: bool, unique: bool)

  /** A column; its index is not part of its definition. */
  datatype Field = Field(name: string, kind: FieldType, flags: Flags, use: FieldUse)

  const NO_FLAGS := Flags(false, false, false)

  /** `Field(FIELD_KEY)` */
  const KEY_FIELD := Field("_ID", TypeInt, Flags(true, false, false), FieldKey)

  // ---------- Printing ----------

  function TypeStr(k: FieldType): string {
    match k
    case TypeInt => "INTEGER"
    case TypeText => "TEXT"
    case TypeFloat => "REAL"
    case TypeBool => "INTEGER"
    case TypeTime => "INTEGER"
    case TypeBlob => "BLOB"
    case TypeUndefined => ""
  }

  function FlagText(fl: Flags): string {
    (if fl.primaryKey then " PRIMARY KEY" else "")
    + ((if fl.notNull then " NOT NULL" else "")
    + (if fl.unique then " UNIQUE" else ""))
  }

  /** `Field::getDefinition` */
  function Definition(f: Field): string {
    Trim(f.name + (" " + (TypeStr(f.kind) + FlagText(f.flags))))
  }

  /** `FieldSet::getDefinition` */
  function TableDefinition(fs: seq<Field>): string {
    if fs == [] then ""
    else if |fs| == 1 then Definition(fs[0])
    else Definition(fs[0]) + (", " + TableDefinition(fs[1..]))
  }

  // ---------- Parsing ----------

  function TypeOf(s: string): FieldType {
    if s == "INTEGER" then TypeInt
    else if s == "TEXT" then TypeText
    else if s == "REAL" then TypeFloat
    else if s == "BLOB" then TypeBlob
    else TypeUndefined
  }

  predicate Contains(s: string, pat: string) {
    exists i :: 0 <= i <= |s| && pat <= s[i..]
  }

  /** The words that are searched for flags: the third and the fourth. */
  function FlagWords(vec: seq<string>): string {
    if |vec| <= 2 then "" else if |vec| == 3 then vec[2] else vec[2] + (" " + vec[3])
  }

  function ParseWords(vec: seq<string>): Option<Field> {
    var name := if |vec| > 0 then vec[0] else "";
    var kind := if |vec| > 1 then TypeOf(vec[1]) else TypeUndefined;
    var words := FlagWords(vec);
    if name == "" || kind == TypeUndefined then None
    else if Contains(words, "PRIMARY KEY") then Some(KEY_FIELD)
    else Some(Field(name, kind, Flags(false, Contains(words, "NOT NULL"), Contains(words, "UNIQUE")), FieldDefault))
  }

  /** `Field::createFromDefinition` */
  function ParseField(s: string): Option<Field> { ParseWords(Pieces(s, ' ')) }

  function ParseFields(vec: seq<string>): Option<seq<Field>> {
    if vec == [] then Some([])
    else
      match (ParseField(vec[0]), ParseFields(vec[1..]))
      case (Some(f), Some(fs)) => Some([f] + fs)
      case _ => None
  }

  /** `FieldSet::createFromDefinition` */
  function ParseTable(s: string): Option<seq<Field>> { ParseFields(Pieces(s, ',')) }

  // ---------- One column ----------

  /** One word, with nothing to trim. */
  predicate IsWord(s: string) {
    Tight(s) && Free(s, ' ')
  }

  function PrintedWords(f: Field): seq<string> {
    [f.name]
    + ((if f.kind == TypeUndefined then [] else [TypeStr(f.kind)])
    + PrintedFlags(f.flags))
  }

  function PrintedFlags(fl: Flags): seq<string> {
    (if fl.primaryKey then ["PRIMARY", "KEY"] else [])
    + ((if fl.notNull then ["NOT", "NULL"] else [])
    + (if fl.unique then ["UNIQUE"] else []))
  }

  /** Ends a word: nothing, or a blank. */
  predicate Ends(s: string) {
    s == "" || s[0] == ' '
  }

  lemma NextWordToken(w: string, rest: string)
    requires w != "" && Free(w, ' ') && Ends(rest)
    ensures Tokens(" " + (w + rest), ' ') == [w] + Tokens(rest, ' ')
  {
    SkipSeparator(w + rest, ' ');
    FirstToken(w, rest, ' ');
  }

  lemma TwoWordTokens(a: string, b: string, rest: string)
    requires a != "" && Free(a, ' ') && b != "" && Free(b, ' ') && Ends(rest)
    ensures Tokens(" " + a + " " + b + rest, ' ') == [a, b] + Tokens(rest, ' ')
  {
    hide Tokens, Free;
    NextWordToken(b, rest);
    NextWordToken(a, " " + (b + rest));
    assert " " + a + " " + b + rest == " " + (a + (" " + (b + rest)));
  }

  lemma FlagWordsAreFree()
    ensures Free("PRIMARY", ' ') && Free("KEY", ' ') && Free("NOT", ' ') && Free("NULL", ' ') && Free("UNIQUE", ' ')
  {
  }

  lemma UniqueTokens(fl: Flags)
    ensures var c := if fl.unique then " UNIQUE" else "";
            Ends(c) && Tokens(c, ' ') == if fl.unique then ["UNIQUE"] else []
  {
    FlagWordsAreFree();
    hide Tokens, Free;
    NoTokens("", ' ');
    NextWordToken("UNIQUE", "");
    assert " " + ("UNIQUE" + "") == " UNIQUE";
  }

  lemma NotNullTokens(fl: Flags, c: string)
    requires Ends(c)
    ensures var bc := (if fl.notNull then " NOT NULL" else "") + c;
            Ends(bc) && Tokens(bc, ' ') == (if fl.notNull then ["NOT", "NULL"] else []) + Tokens(c, ' ')
  {
    FlagWordsAreFree();
    hide Tokens, Free;
    TwoWordTokens("NOT", "NULL", c);
    assert " " + "NOT" + " " + "NULL" == " NOT NULL";
    assert "" + c == c;
  }

  lemma PrimaryKeyTokens(fl: Flags, bc: string)
    requires Ends(bc)
    ensures var abc := (if fl.primaryKey then " PRIMARY KEY" else "") + bc;
            Ends(abc) && Tokens(abc, ' ') == (if fl.primaryKey then ["PRIMARY", "KEY"] else []) + Tokens(bc, ' ')
  {
    FlagWordsAreFree();
    hide Tokens, Free;
    TwoWordTokens("PRIMARY", "KEY", bc);
    assert " " + "PRIMARY" + " " + "KEY" == " PRIMARY KEY";
    assert "" + bc == bc;
  }

  lemma FlagTokens(fl: Flags)
    ensures Ends(FlagText(fl)) && Tokens(FlagText(fl), ' ') == PrintedFlags(fl)
  {
    hide Tokens, Ends;
    var c := if fl.unique then " UNIQUE" else "";
    UniqueTokens(fl);
    NotNullTokens(fl, c);
    PrimaryKeyTokens(fl, (if fl.notNull then " NOT NULL" else "") + c);
  }

  lemma FlagTextEnds(fl: Flags)
    ensures var t := FlagText(fl);
            (t == "" || !IsSpace(t[|t| - 1])) && Free(t, ',')
  {
  }

  lemma KindWords(k: FieldType)
    ensures TypeStr(k) == "" <==> k == TypeUndefined
    ensures TypeStr(k) != "" ==> IsWord(TypeStr(k))
    ensures Free(TypeStr(k), ',')
  {
  }

  lemma FlagWordsAreTight()
    ensures Tight("PRIMARY") && Tight("KEY") && Tight("NOT") && Tight("NULL") && Tight("UNIQUE")
  {
  }

  lemma TightWordsStay(ts: seq<string>)
    requires forall i :: 0 <= i < |ts| ==> Tight(ts[i])
    ensures TrimAll(ts) == ts
  {
    hide Trim, Tight;
    forall i | 0 <= i < |ts|
      ensures Trim(ts[i]) == ts[i]
    {
      TrimTight(ts[i]);
    }
  }

  lemma WordsAreTight(f: Field)
    requires IsWord(f.name)
    ensures TrimAll(PrintedWords(f)) == PrintedWords(f)
  {
    KindWords(f.kind);
    FlagWordsAreTight();
    hide TypeStr, Tight, Free;
    TightWordsStay(PrintedWords(f));
  }

  /** What is printed, before trimming and after. */
  lemma DefinitionText(f: Field)
    requires IsWord(f.name)
    ensures var text := TypeStr(f.kind) + FlagText(f.flags);
            Definition(f) == (if text == "" then f.name else f.name + (" " + text)) && Tight(Definition(f))
  {
    var text := TypeStr(f.kind) + FlagText(f.flags);
    KindWords(f.kind);
    FlagTextEnds(f.flags);
    hide TypeStr, FlagText, Trim;
    TrimTight(f.name);
    if text == "" {
      assert f.name + (" " + text) == f.name + " ";
    } else {
      var d := f.name + (" " + text);
      assert d[0] == f.name[0] && d[|d| - 1] == text[|text| - 1];
      TrimTight(d);
    }
  }

  lemma NameAndKind(name: string, kind: string, flags: string)
    requires name != "" && Free(name, ' ') && kind != "" && Free(kind, ' ') && Ends(flags)
    ensures Tokens(name + (" " + (kind + flags)), ' ') == [name] + ([kind] + Tokens(flags, ' '))
  {
    hide Tokens, Free;
    FirstToken(name, " " + (kind + flags), ' ');
    NextWordToken(kind, flags);
  }

  lemma NameAlone(name: string, flags: string)
    requires name != "" && Free(name, ' ') && Ends(flags)
    ensures Tokens(if flags == "" then name else name + (" " + flags), ' ') == [name] + Tokens(flags, ' ')
  {
    hide Tokens, Free;
    NoTokens("", ' ');
    FirstToken(name, "", ' ');
    assert name + "" == name;
    FirstToken(name, " " + flags, ' ');
    SkipSeparator(flags, ' ');
  }

  lemma PrintedShape(f: Field)
    ensures PrintedWords(f)
         == [f.name] + if TypeStr(f.kind) == "" then PrintedFlags(f.flags) else [TypeStr(f.kind)] + PrintedFlags(f.flags)
  {
    KindWords(f.kind);
    hide TypeStr, PrintedFlags;
  }

  lemma DefinitionTokens(f: Field)
    requires IsWord(f.name)
    ensures Tokens(Definition(f), ' ') == PrintedWords(f)
  {
    PrintedShape(f);
    var flags, kind := FlagText(f.flags), TypeStr(f.kind);
    FlagTokens(f.flags);
    KindWords(f.kind);
    DefinitionText(f);
    hide *;
    if kind == "" {
      assert kind + flags == flags;
      NameAlone(f.name, flags);
    } else {
      NameAndKind(f.name, kind, flags);
    }
  }

  /** A column with a proper name prints as its words. */
  lemma DefinitionWords(f: Field)
    requires IsWord(f.name)
    ensures Pieces(Definition(f), ' ') == PrintedWords(f)
  {
    hide Tokens, TrimAll, Definition, PrintedWords;
    DefinitionTokens(f);
    WordsAreTight(f);
  }

  // ---------- What parsing makes of the words ----------

  lemma FlagsFound()
    ensures Contains("PRIMARY KEY", "PRIMARY KEY") && !Contains("NOT NULL", "PRIMARY KEY") && !Contains("UNIQUE", "PRIMARY KEY")
    ensures Contains("NOT NULL", "NOT NULL") && !Contains("NOT NULL", "UNIQUE")
    ensures Contains("UNIQUE", "UNIQUE") && !Contains("UNIQUE", "NOT NULL")
    ensures !Contains("", "PRIMARY KEY") && !Contains("", "NOT NULL") && !Contains("", "UNIQUE")
  {
    assert "PRIMARY KEY" <= "PRIMARY KEY"[0..] && "NOT NULL" <= "NOT NULL"[0..] && "UNIQUE" <= "UNIQUE"[0..];
    assert "UNIQUE"[0] == 'U' && "UNIQUE"[1] == 'N';
    forall i | 0 <= i <= 8
      ensures !("UNIQUE" <= "NOT NULL"[i..])
    {
      var rest := "NOT NULL"[i..];
      assert i <= 2 ==> rest[0] == "NOT NULL"[i] != 'U';
    }
  }

  /** The kind that the printed type stands for. */
  function StoredKind(k: FieldType): FieldType {
    if k == TypeBool || k == TypeTime then TypeInt else k
  }

  /** The column that comes back: a primary key as the key column, UNIQUE only without NOT NULL. */
  function Reparsed(f: Field): Option<Field> {
    if f.kind == TypeUndefined then None
    else if f.flags.primaryKey then Some(KEY_FIELD)
    else Some(Field(f.name, StoredKind(f.kind), Flags(false, f.flags.notNull, f.flags.unique && !f.flags.notNull), FieldDefault))
  }

  lemma WordsReparse(f: Field)
    requires IsWord(f.name)
    ensures ParseWords(PrintedWords(f)) == Reparsed(f)
  {
    FlagsFound();
    hide Contains;
    var vec := PrintedWords(f);
    var fl := f.flags;
    assert "PRIMARY" + (" " + "KEY") == "PRIMARY KEY" && "NOT" + (" " + "NULL") == "NOT NULL";
    if f.kind != TypeUndefined {
      assert vec[1] == TypeStr(f.kind);
      assert TypeOf(vec[1]) == StoredKind(f.kind);
      assert FlagWords(vec) == if fl.primaryKey then "PRIMARY KEY" else if fl.notNull then "NOT NULL" else if fl.unique then "UNIQUE" else "";
    } else {
      assert |vec| > 1 ==> vec[1] == (if fl.primaryKey then "PRIMARY" else if fl.notNull then "NOT" else "UNIQUE");
    }
  }

  /** Columns whose parts survive: the key column, and plain columns with at most one of the two flags. */
  predicate Keeps(f: Field) {
    f == KEY_FIELD
    || (&& f.use == FieldDefault && f.kind in {TypeInt, TypeText, TypeFloat, TypeBlob}
        && !f.flags.primaryKey && !(f.flags.notNull && f.flags.unique))
  }

  lemma FieldReparses(f: Field)
    requires IsWord(f.name)
    ensures ParseField(Definition(f)) == Reparsed(f)
    ensures ParseField(Definition(f)) == Some(f) <==> Keeps(f)
  {
    hide Definition, PrintedWords, ParseWords;
    DefinitionWords(f);
    WordsReparse(f);
  }

  lemma {:induction false} TokensKeepFree(s: string, sep: char, c: char)
    requires Free(s, c)
    ensures forall i :: 0 <= i < |Tokens(s, sep)| ==> Free(Tokens(s, sep)[i], c)
    decreases |s|
  {
    if s != "" {
      if s[0] == sep {
        TokensKeepFree(s[1..], sep, c);
      } else {
        TokensKeepFree(s[TokenEnd(s, sep)..], sep, c);
      }
    }
  }

  /** Whatever is parsed has a proper name. */
  lemma ParsedName(s: string)
    ensures var r := ParseField(s);
            r.Some? ==> IsWord(r.value.name) && (Free(s, ',') ==> Free(r.value.name, ','))
  {
    hide Contains, Trim;
    var ts := Tokens(s, ' ');
    TokensAreFree(s, ' ');
    if Free(s, ',') {
      TokensKeepFree(s, ' ', ',');
    }
    if |ts| > 0 {
      TrimmedIsTight(ts[0]);
    }
  }

  /** A column comes back from its definition if and only if its name is one word and its parts survive. */
  lemma FieldRoundTrip(f: Field)
    ensures ParseField(Definition(f)) == Some(f) <==> IsWord(f.name) && Keeps(f)
  {
    hide ParseField, Definition;
    ParsedName(Definition(f));
    if IsWord(f.name) {
      FieldReparses(f);
    }
  }

  /** A column that is NOT NULL and UNIQUE comes back as one that is NOT NULL. */
  lemma UniqueLost()
    ensures var f := Field("a", TypeInt, Flags(false, true, true), FieldDefault);
            ParseField(Definition(f)) == Some(f.(flags := Flags(false, true, false)))
  {
    var f := Field("a", TypeInt, Flags(false, true, true), FieldDefault);
    assert IsWord(f.name);
    hide ParseField, Definition, IsWord;
    FieldReparses(f);
  }

  // ---------- The printed text, written out ----------

  /** The text of a plain column of each type. */
  lemma TypeTexts(name: string)
    requires IsWord(name)
    ensures Definition(Field(name, TypeInt, NO_FLAGS, FieldDefault)) == name + " INTEGER"
    ensures Definition(Field(name, TypeText, NO_FLAGS, FieldDefault)) == name + " TEXT"
    ensures Definition(Field(name, TypeFloat, NO_FLAGS, FieldDefault)) == name + " REAL"
    ensures Definition(Field(name, TypeBool, NO_FLAGS, FieldDefault)) == name + " INTEGER"
    ensures Definition(Field(name, TypeTime, NO_FLAGS, FieldDefault)) == name + " INTEGER"
    ensures Definition(Field(name, TypeBlob, NO_FLAGS, FieldDefault)) == name + " BLOB"
    ensures Definition(Field(name, TypeUndefined, NO_FLAGS, FieldDefault)) == name
  {
    hide Definition, IsWord;
    PrintsAs(Field(name, TypeInt, NO_FLAGS, FieldDefault), "INTEGER", " INTEGER");
    PrintsAs(Field(name, TypeText, NO_FLAGS, FieldDefault), "TEXT", " TEXT");
    PrintsAs(Field(name, TypeFloat, NO_FLAGS, FieldDefault), "REAL", " REAL");
    PrintsAs(Field(name, TypeBool, NO_FLAGS, FieldDefault), "INTEGER", " INTEGER");
    PrintsAs(Field(name, TypeTime, NO_FLAGS, FieldDefault), "INTEGER", " INTEGER");
    PrintsAs(Field(name, TypeBlob, NO_FLAGS, FieldDefault), "BLOB", " BLOB");
    DefinitionText(Field(name, TypeUndefined, NO_FLAGS, FieldDefault));
  }

  lemma PrintsAs(f: Field, text: string, blankAndText: string)
    requires IsWord(f.name) && text == TypeStr(f.kind) + FlagText(f.flags) && text != "" && blankAndText == " " + text
    ensures Definition(f) == f.name + blankAndText
  {
    hide Definition, IsWord, TypeStr, FlagText;
    DefinitionText(f);
  }

  /** What each combination of flags adds to the text of a column. */
  lemma FlagTexts(f: Field)
    requires IsWord(f.name) && f.kind != TypeUndefined
    ensures var plain := Definition(f.(flags := NO_FLAGS));
            Definition(f)
            == match f.flags
               case Flags(false, false, false) => plain
               case Flags(true, false, false) => plain + " PRIMARY KEY"
               case Flags(false, true, false) => plain + " NOT NULL"
               case Flags(false, false, true) => plain + " UNIQUE"
               case Flags(true, true, false) => plain + " PRIMARY KEY NOT NULL"
               case Flags(true, false, true) => plain + " PRIMARY KEY UNIQUE"
               case Flags(false, true, true) => plain + " NOT NULL UNIQUE"
               case Flags(true, true, true) => plain + " PRIMARY KEY NOT NULL UNIQUE"
  {
    hide Definition, IsWord, FlagText, TypeStr;
    AddsFlags(f);
    FlagTextLiterals();
  }

  lemma AddsFlags(f: Field)
    requires IsWord(f.name) && f.kind != TypeUndefined
    ensures Definition(f) == Definition(f.(flags := NO_FLAGS)) + FlagText(f.flags) && FlagText(NO_FLAGS) == ""
  {
    hide Definition, IsWord, TypeStr, FlagText;
    var plain := f.(flags := NO_FLAGS);
    DefinitionText(f);
    DefinitionText(plain);
    KindWords(f.kind);
    FlagTextLiterals();
    var kind, flags := TypeStr(f.kind), FlagText(f.flags);
    assert kind + "" == kind;
    assert f.name + (" " + (kind + flags)) == f.name + (" " + kind) + flags;
  }

  lemma FlagTextLiterals()
    ensures FlagText(Flags(false, false, false)) == "" && FlagText(Flags(true, false, false)) == " PRIMARY KEY"
    ensures FlagText(Flags(false, true, false)) == " NOT NULL" && FlagText(Flags(false, false, true)) == " UNIQUE"
    ensures FlagText(Flags(true, true, false)) == " PRIMARY KEY NOT NULL"
    ensures FlagText(Flags(true, false, true)) == " PRIMARY KEY UNIQUE"
    ensures FlagText(Flags(false, true, true)) == " NOT NULL UNIQUE"
    ensures FlagText(Flags(true, true, true)) == " PRIMARY KEY NOT NULL UNIQUE"
  {
  }

  /** Definitions of columns are joined by a comma and a blank. */
  lemma {:induction false} TablesJoin(a: seq<Field>, b: seq<Field>)
    requires a != [] && b != []
    ensures TableDefinition(a + b) == TableDefinition(a) + ", " + TableDefinition(b)
    ensures |a| == 1 ==> TableDefinition(a) == Definition(a[0])
    decreases |a|
  {
    hide Definition;
    assert (a + b)[0] == a[0] && (a + b)[1..] == a[1..] + b;
    if |a| == 1 {
      assert a[1..] + b == b;
    } else {
      TablesJoin(a[1..], b);
    }
  }

  // ---------- What the parser makes of any words ----------

  /** A word between anything is found. */
  lemma PartIsFound(a: string, pat: string, b: string)
    ensures Contains(a + pat + b, pat)
  {
    var s := a + pat + b;
    assert s[|a|..] == pat + b;
    assert pat <= s[|a|..];
  }

  /** What is found is a part. */
  lemma FoundIsPart(s: string, pat: string) returns (a: string, b: string)
    requires Contains(s, pat)
    ensures s == a + pat + b
  {
    var i :| 0 <= i <= |s| && pat <= s[i..];
    a, b := s[..i], s[i + |pat|..];
    assert s == s[..i] + s[i..] && s[i..] == pat + s[i..][|pat|..];
    assert s[i..][|pat|..] == b;
  }

  predicate EndsWith(s: string, p: string) {
    |p| <= |s| && s[|s| - |p|..] == p
  }

  /** A phrase of two words is found in two words if and only if it lies around the blank. */
  lemma PhraseAroundBlank(x: string, y: string, p: string, q: string)
    requires Free(x, ' ') && Free(y, ' ') && Free(p, ' ') && Free(q, ' ')
    ensures Contains(x + (" " + y), p + (" " + q)) <==> EndsWith(x, p) && q <= y
  {
    var s, pat := x + (" " + y), p + (" " + q);
    if EndsWith(x, p) && q <= y {
      PartIsFound(x[..|x| - |p|], pat, y[|q|..]);
      assert x == x[..|x| - |p|] + p && y == q + y[|q|..];
      assert s == x[..|x| - |p|] + pat + y[|q|..];
    }
    if Contains(s, pat) {
      var a, b := FoundIsPart(s, pat);
      BlankMeetsBlank(x, y, a, p, q, b);
    }
  }

  lemma BlankMeetsBlank(x: string, y: string, a: string, p: string, q: string, b: string)
    requires Free(x, ' ') && Free(y, ' ') && x + (" " + y) == a + (p + (" " + q)) + b
    ensures EndsWith(x, p) && q <= y
  {
    var s := x + (" " + y);
    assert s[|a| + |p|] == ' ';
    assert forall i :: 0 <= i < |s| && i != |x| ==> s[i] != ' ' by {
      assert forall i :: |x| < i < |s| ==> s[i] == y[i - |x| - 1];
    }
    assert |a| + |p| == |x|;
    assert s[..|x|] == x && s[..|x|] == a + p;
    assert s[|x| + 1..] == y && s[|x| + 1..] == q + b;
  }

  /** One word is found in two words if and only if it is found in one of them. */
  lemma WordInEither(x: string, y: string, w: string)
    requires Free(w, ' ') && w != ""
    ensures Contains(x + (" " + y), w) <==> Contains(x, w) || Contains(y, w)
  {
    var s := x + (" " + y);
    if Contains(x, w) {
      var a, b := FoundIsPart(x, w);
      PartIsFound(a, w, b + (" " + y));
      assert s == a + w + (b + (" " + y));
    }
    if Contains(y, w) {
      var a, b := FoundIsPart(y, w);
      PartIsFound(x + (" " + a), w, b);
      assert s == x + (" " + a) + w + b;
    }
    if Contains(s, w) {
      var a, b := FoundIsPart(s, w);
      WordOnOneSide(x, y, a, w, b);
    }
  }

  lemma WordOnOneSide(x: string, y: string, a: string, w: string, b: string)
    requires Free(w, ' ') && w != "" && x + (" " + y) == a + w + b
    ensures Contains(x, w) || Contains(y, w)
  {
    var s := x + (" " + y);
    assert s[|x|] == ' ';
    assert forall i :: |a| <= i < |a| + |w| ==> s[i] == w[i - |a|];
    if |a| + |w| <= |x| {
      var b' := x[|a| + |w|..];
      assert x == s[..|x|] == a + w + b';
      PartIsFound(a, w, b');
    } else {
      assert |a| > |x|;
      var a' := y[..|a| - |x| - 1];
      assert y == s[|x| + 1..] == a' + w + b;
      PartIsFound(a', w, b);
    }
  }

  lemma FourWords(name: string, kind: string, x: string, y: string, rest: string)
    requires IsWord(name) && IsWord(kind) && IsWord(x) && IsWord(y) && Ends(rest)
    ensures Pieces(name + (" " + (kind + (" " + (x + (" " + (y + rest)))))), ' ')
         == [name, kind, x, y] + Pieces(rest, ' ')
  {
    hide Tokens, Trim, Free, IsSpace;
    NextWordToken(y, rest);
    NextWordToken(x, " " + (y + rest));
    NextWordToken(kind, " " + (x + (" " + (y + rest))));
    FirstToken(name, " " + (kind + (" " + (x + (" " + (y + rest))))), ' ');
    TrimTight(name);
    TrimTight(kind);
    TrimTight(x);
    TrimTight(y);
    assert TrimAll([name, kind, x, y] + Tokens(rest, ' ')) == [name, kind, x, y] + TrimAll(Tokens(rest, ' '));
  }

  lemma FewerWords(name: string, kind: string, x: string)
    requires IsWord(name) && IsWord(kind) && IsWord(x)
    ensures Pieces(name + (" " + kind), ' ') == [name, kind]
    ensures Pieces(name + (" " + (kind + (" " + x))), ' ') == [name, kind, x]
  {
    hide Tokens, Trim, Free, IsSpace;
    NoTokens("", ' ');
    NextWordToken(x, "");
    NextWordToken(kind, "");
    NextWordToken(kind, " " + x);
    assert x + "" == x && kind + "" == kind;
    FirstToken(name, " " + kind, ' ');
    FirstToken(name, " " + (kind + (" " + x)), ' ');
    TrimTight(name);
    TrimTight(kind);
    TrimTight(x);
    assert TrimAll([name, kind]) == [name, kind];
    assert TrimAll([name, kind, x]) == [name, kind, x];
  }

  /** The words that are types. */
  lemma TypeWords(s: string)
    ensures TypeOf(s) == TypeInt <==> s == "INTEGER"
    ensures TypeOf(s) == TypeText <==> s == "TEXT"
    ensures TypeOf(s) == TypeFloat <==> s == "REAL"
    ensures TypeOf(s) == TypeBlob <==> s == "BLOB"
    ensures TypeOf(s) in {TypeUndefined, TypeInt, TypeText, TypeFloat, TypeBlob}
  {
  }

  lemma ParseFour(name: string, kind: string, x: string, y: string, more: seq<string>)
    requires name != ""
    ensures var words := x + (" " + y);
            ParseWords([name, kind, x, y] + more)
            == if TypeOf(kind) == TypeUndefined then None
               else if Contains(words, "PRIMARY KEY") then Some(Field("_ID", TypeInt, Flags(true, false, false), FieldKey))
               else Some(Field(name, TypeOf(kind), Flags(false, Contains(words, "NOT NULL"), Contains(words, "UNIQUE")), FieldDefault))
  {
    hide Contains;
    var vec := [name, kind, x, y] + more;
    assert vec[0] == name && vec[1] == kind && vec[2] == x && vec[3] == y;
  }

  /**
   What the parser makes of any definition of four words or more: the third and the fourth are searched as one text, so
   that a flag of two words may begin and end inside of them, and what follows is not looked at.
   */
  lemma ParsedColumn(name: string, kind: string, x: string, y: string, rest: string)
    requires IsWord(name) && IsWord(kind) && IsWord(x) && IsWord(y) && Ends(rest)
    ensures ParseField(name + (" " + (kind + (" " + (x + (" " + (y + rest)))))))
         == if TypeOf(kind) == TypeUndefined then None
            else if EndsWith(x, "PRIMARY") && "KEY" <= y then Some(Field("_ID", TypeInt, Flags(true, false, false), FieldKey))
            else
              var notNull := EndsWith(x, "NOT") && "NULL" <= y;
              var unique := Contains(x, "UNIQUE") || Contains(y, "UNIQUE");
              Some(Field(name, TypeOf(kind), Flags(false, notNull, unique), FieldDefault))
  {
    hide Contains, Pieces, EndsWith, Free, ParseWords, Ends;
    FourWords(name, kind, x, y, rest);
    ParseFour(name, kind, x, y, Pieces(rest, ' '));
    FlagWordsAreFree();
    PhraseAroundBlank(x, y, "PRIMARY", "KEY");
    PhraseAroundBlank(x, y, "NOT", "NULL");
    WordInEither(x, y, "UNIQUE");
    assert "PRIMARY" + (" " + "KEY") == "PRIMARY KEY" && "NOT" + (" " + "NULL") == "NOT NULL";
  }

  lemma NoPhraseInWord(x: string, p: string, q: string)
    ensures Contains(x, p + (" " + q)) ==> !Free(x, ' ')
  {
    if Contains(x, p + (" " + q)) {
      var a, b := FoundIsPart(x, p + (" " + q));
      assert x[|a| + |p|] == ' ';
    }
  }

  lemma ParseFewer(name: string, kind: string, x: string)
    requires name != ""
    ensures ParseWords([name, kind])
         == if TypeOf(kind) == TypeUndefined then None else Some(Field(name, TypeOf(kind), NO_FLAGS, FieldDefault))
    ensures ParseWords([name, kind, x])
         == if TypeOf(kind) == TypeUndefined then None
            else
              if Contains(x, "PRIMARY KEY") then Some(KEY_FIELD)
              else Some(Field(name, TypeOf(kind), Flags(false, Contains(x, "NOT NULL"), Contains(x, "UNIQUE")), FieldDefault))
  {
    FlagsFound();
    hide Contains;
  }

  /** The same for shorter definitions: a third word can only be UNIQUE. */
  lemma ParsedShortColumn(name: string, kind: string, x: string)
    requires IsWord(name) && IsWord(kind) && IsWord(x)
    ensures ParseField(name + (" " + kind))
         == if TypeOf(kind) == TypeUndefined then None else Some(Field(name, TypeOf(kind), NO_FLAGS, FieldDefault))
    ensures ParseField(name + (" " + (kind + (" " + x))))
         == if TypeOf(kind) == TypeUndefined then None
            else Some(Field(name, TypeOf(kind), Flags(false, false, Contains(x, "UNIQUE")), FieldDefault))
  {
    hide Contains, Pieces, Free, ParseWords;
    FewerWords(name, kind, x);
    ParseFewer(name, kind, x);
    NoPhraseInWord(x, "PRIMARY", "KEY");
    NoPhraseInWord(x, "NOT", "NULL");
    assert "PRIMARY" + (" " + "KEY") == "PRIMARY KEY" && "NOT" + (" " + "NULL") == "NOT NULL";
  }

  lemma SomeWords()
    ensures IsWord("a") && IsWord("TEXT") && IsWord("NULL") && IsWord("UNIQUE")
    ensures !EndsWith("NULL", "PRIMARY") && !EndsWith("NULL", "NOT")
  {
    assert "NULL"[1..] == "ULL" && "ULL"[0] != "NOT"[0];
  }

  /** A flag that is the second of two words is found. */
  lemma SecondWordIsUnique()
    ensures ParseField("a TEXT NULL UNIQUE") == Some(Field("a", TypeText, Flags(false, false, true), FieldDefault))
  {
    hide ParseField, Contains, IsWord, EndsWith;
    SomeWords();
    FlagsFound();
    ParsedColumn("a", "TEXT", "NULL", "UNIQUE", "");
    assert "a" + (" " + ("TEXT" + (" " + ("NULL" + (" " + ("UNIQUE" + "")))))) == "a TEXT NULL UNIQUE";
  }

  // ---------- A whole table ----------

  /** The name does not break the list of columns, either. */
  predicate IsColumnName(s: string) {
    IsWord(s) && Free(s, ',')
  }

  lemma DefinitionIsPiece(f: Field)
    requires IsColumnName(f.name)
    ensures Tight(Definition(f)) && Free(Definition(f), ',')
  {
    DefinitionText(f);
    KindWords(f.kind);
    FlagTextEnds(f.flags);
    hide TypeStr, FlagText, Definition;
  }

  function Definitions(fs: seq<Field>): (r: seq<string>)
    ensures |r| == |fs| && forall i :: 0 <= i < |fs| ==> r[i] == Definition(fs[i])
  {
    seq(|fs|, i requires 0 <= i < |fs| => Definition(fs[i]))
  }

  lemma TrimAllCons(t: string, ts: seq<string>)
    ensures TrimAll([t] + ts) == [Trim(t)] + TrimAll(ts)
  {
  }

  /** The printed list falls apart into the definitions it was made of. */
  lemma {:induction false} TablePieces(fs: seq<Field>, blank: string)
    requires forall i :: 0 <= i < |fs| ==> IsColumnName(fs[i].name)
    requires blank == "" || blank == " "
    requires fs != []
    ensures TrimAll(Tokens(blank + TableDefinition(fs), ',')) == Definitions(fs)
    decreases |fs|
  {
    hide Definition, Tokens, IsColumnName, TrimAll, Trim, IsSpace;
    DefinitionIsPiece(fs[0]);
    var d := Definition(fs[0]);
    TrimTight(d);
    assert blank + d == d || blank + d == " " + d;
    NoTokens("", ',');
    if |fs| == 1 {
      FirstToken(blank + d, "", ',');
      assert blank + d + "" == blank + TableDefinition(fs);
      assert TrimAll([blank + d]) == [d];
    } else {
      var rest := TableDefinition(fs[1..]);
      FirstToken(blank + d, ", " + rest, ',');
      assert blank + d + (", " + rest) == blank + TableDefinition(fs);
      SkipSeparator(" " + rest, ',');
      assert [','] + (" " + rest) == ", " + rest;
      TablePieces(fs[1..], " ");
      TrimAllCons(blank + d, Tokens(" " + rest, ','));
      assert [d] + Definitions(fs[1..]) == Definitions(fs);
    }
  }

  lemma {:induction false} ParsesAll(fs: seq<Field>)
    requires forall i :: 0 <= i < |fs| ==> IsWord(fs[i].name)
    ensures ParseFields(Definitions(fs)) == Some(fs) <==> forall i :: 0 <= i < |fs| ==> Keeps(fs[i])
    decreases |fs|
  {
    hide ParseField, Definition, IsWord, Keeps;
    if fs != [] {
      FieldReparses(fs[0]);
      assert Definitions(fs)[1..] == Definitions(fs[1..]);
      ParsesAll(fs[1..]);
      assert fs == [fs[0]] + fs[1..];
    } else {
      assert Definitions(fs) == [];
    }
  }

  lemma {:induction false} ParsedNames(vec: seq<string>)
    requires forall i :: 0 <= i < |vec| ==> Free(vec[i], ',')
    ensures var r := ParseFields(vec);
            r.Some? ==> |r.value| == |vec| && forall i :: 0 <= i < |r.value| ==> IsColumnName(r.value[i].name)
    decreases |vec|
  {
    hide ParseField, IsWord;
    if vec != [] {
      ParsedName(vec[0]);
      ParsedNames(vec[1..]);
    }
  }

  lemma PiecesAreFree(s: string)
    ensures forall i :: 0 <= i < |Pieces(s, ',')| ==> Free(Pieces(s, ',')[i], ',')
  {
    hide Tokens, Trim;
    TokensAreFree(s, ',');
    forall i | 0 <= i < |Tokens(s, ',')| {
      TrimmedIsTight(Tokens(s, ',')[i]);
    }
  }

  /**
   A table comes back from its definition if and only if every column has a one-word name without commas
   and parts that survive.
   */
  lemma TableRoundTrip(fs: seq<Field>)
    ensures ParseTable(TableDefinition(fs)) == Some(fs)
       <==> forall i :: 0 <= i < |fs| ==> IsColumnName(fs[i].name) && Keeps(fs[i])
  {
    hide TableDefinition, ParseFields, Pieces, Keeps, IsWord;
    PiecesAreFree(TableDefinition(fs));
    ParsedNames(Pieces(TableDefinition(fs), ','));
    if forall i :: 0 <= i < |fs| ==> IsColumnName(fs[i].name) {
      TableSplits(fs);
      ParsesAll(fs);
    }
  }

  lemma TableSplits(fs: seq<Field>)
    requires forall i :: 0 <= i < |fs| ==> IsColumnName(fs[i].name)
    ensures Pieces(TableDefinition(fs), ',') == Definitions(fs)
  {
    hide IsColumnName, Definition;
    if fs != [] {
      TablePieces(fs, "");
      assert "" + TableDefinition(fs) == TableDefinition(fs);
    }
  }

  // ---------- The loops of the source ----------

  /** `Field::getDefinition` */
  method GetDefinition(f: Field) returns (value: string)
    ensures value == Definition(f)
  {
    hide Trim, TypeStr;
    value := f.name + " " + TypeStr(f.kind);
    if f.flags.primaryKey {
      value := value + " PRIMARY KEY";
    }
    if f.flags.notNull {
      value := value + " NOT NULL";
    }
    if f.flags.unique {
      value := value + " UNIQUE";
    }
    assert value == f.name + (" " + (TypeStr(f.kind) + FlagText(f.flags)));
    value := TrimOf(value);
  }

  /** `FieldSet::getDefinition` */
  method GetTableDefinition(fs: seq<Field>) returns (s: string)
    ensures s == TableDefinition(fs)
  {
    hide Definition;
    s := "";
    assert fs[0..] == fs;
    for index := 0 to |fs|
      invariant s + TableDefinition(fs[index..]) == TableDefinition(fs)
    {
      ghost var before, rest := s, TableDefinition(fs[index + 1..]);
      assert fs[index..][1..] == fs[index + 1..];
      var d := GetDefinition(fs[index]);
      s := s + d;
      if index < |fs| - 1 {
        s := s + ", ";
        assert s + rest == before + (d + (", " + rest));
      } else {
        assert s + rest == before + d;
      }
    }
  }

  /** `Field::createFromDefinition` */
  method CreateField(value: string) returns (field: Option<Field>)
    ensures field == ParseField(value)
  {
    hide Contains, Trim;
    var vec := ListToVector(value, ' ');
    var count := |vec|;
    var name, kind, use, flags := "", TypeUndefined, FieldDefault, NO_FLAGS;
    if count > 0 {
      name := vec[0];
    }
    if count > 1 {
      kind := TypeOf(vec[1]);
    }
    NoFlagsInNothing();
    if count > 2 {
      var words := vec[2];
      if count > 3 {
        words := words + (" " + vec[3]);
      }
      if Contains(words, "PRIMARY KEY") {
        use := FieldKey;
        flags := Flags(true, false, false);
      }
      if Contains(words, "NOT NULL") {
        flags := flags.(notNull := true);
      }
      if Contains(words, "UNIQUE") {
        flags := flags.(unique := true);
      }
    }
    field := None;
    if name != "" && kind != TypeUndefined {
      field := Some(if use == FieldDefault then Field(name, kind, flags, FieldDefault) else KEY_FIELD);
    }
  }

  lemma NoFlagsInNothing()
    ensures !Contains("", "PRIMARY KEY") && !Contains("", "NOT NULL") && !Contains("", "UNIQUE")
  {
    FlagsFound();
  }

  /** `FieldSet::createFromDefinition` */
  method CreateTable(value: string) returns (fields: Option<seq<Field>>)
    ensures fields == ParseTable(value)
  {
    hide ParseField;
    var vec := ListToVector(value, ',');
    var fs: seq<Field> := [];
    assert vec[0..] == vec && forall rest: seq<Field> :: fs + rest == rest;
    for index := 0 to |vec|
      invariant ParseFields(vec) == match ParseFields(vec[index..]) case None => None case Some(rest) => Some(fs + rest)
    {
      assert vec[index..][1..] == vec[index + 1..];
      var field := CreateField(vec[index]);
      if field == None {
        return None;
      }
      ghost var before := fs;
      fs := fs + [field.value];
      assert forall rest: seq<Field> :: before + ([field.value] + rest) == fs + rest;
    }
    assert fs + [] == fs;
    fields := Some(fs);
  }
}
