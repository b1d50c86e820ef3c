/** The string handling of the knowledge entry and edit forms
    (modules/ui/knowledge_form.py): file extension and file name, the title
    taken from extracted text, the required-field check, the category
    options, and clearing the edit form's session keys. */
module KnowledgeForm {
  import opened Wrappers
  import opened Seqs
  import opened Text
  import opened Session

  /** The categories every form offers. */
  const DefaultCategories: seq<string> := ["General", "Technical", "Process", "Project", "Research"]
  const MaxTitleLength: nat := 70
  const RequiredFieldsMessage: string := "Title, Content and Category are required"

  /** `name.split('.')[-1].lower()`: the text after the last '.', lowercased
      (the whole name when it has no '.'). */
  function FileExtension(name: string): (ext: string)
    ensures |ext| <= |name| && ext == LowerStr(name[|name| - |ext|..])
    ensures '.' !in name[|name| - |ext|..]
    ensures |ext| < |name| ==> name[|name| - |ext| - 1] == '.'
    ensures forall i :: 0 <= i < |ext| ==> !IsUpper(ext[i])
  {
    LowerStr(LastField(name, '.'))
  }

  /** `file_path.split("/")[-1]`: the text after the last '/'. */
  function FileName(path: string): (name: string)
    ensures '/' !in name
    ensures |name| <= |path| && path[|path| - |name|..] == name
    ensures |name| < |path| ==> path[|path| - |name| - 1] == '/'
  {
    LastField(path, '/')
  }

  /** `next((line for line in lines if line.strip()), "")`. */
  function FirstNonBlank(lines: seq<string>): (r: string)
    ensures r == "" <==> forall i :: 0 <= i < |lines| ==> Blank(lines[i])
    ensures r != "" ==> exists i :: 0 <= i < |lines| && lines[i] == r && !Blank(r)
                                    && forall j :: 0 <= j < i ==> Blank(lines[j])
  {
    if lines == [] then ""
    else if !Blank(lines[0]) then lines[0]
    else
      var r := FirstNonBlank(lines[1..]);
      assert forall k :: 0 <= k < |lines| - 1 ==> lines[1..][k] == lines[k + 1];
      r
  }

  /** Lines 199-200: a title over 70 characters keeps its first 67 and gains "...". */
  function Shorten(title: string): (r: string)
    ensures |r| <= MaxTitleLength
    ensures |title| <= MaxTitleLength ==> r == title
    ensures |title| > MaxTitleLength ==> |r| == MaxTitleLength && r[..67] == title[..67] && r[67..] == "..."
    ensures r == "" <==> title == ""
  {
    if |title| > MaxTitleLength then title[..67] + "..." else title
  }

  /** Lines 197-200: the title proposed for extracted text. */
  function ExtractTitle(text: string): (title: string)
    ensures |title| <= MaxTitleLength
    ensures '\n' !in title
    ensures title == "" ==> forall i :: 0 <= i < |Split(text, '\n')| ==> Blank(Split(text, '\n')[i])
    ensures title != "" ==>
              exists i :: 0 <= i < |Split(text, '\n')| && !Blank(Split(text, '\n')[i])
                && title == Shorten(Split(text, '\n')[i])
                && forall j :: 0 <= j < i ==> Blank(Split(text, '\n')[j])
  {
    var line := FirstNonBlank(Split(text, '\n'));
    assert line != "" ==> '\n' !in line;
    assert '\n' !in "...";
    Shorten(line)
  }

  /** Lines 56-58, 235-237 and 361-363: saving is refused unless title,
      content and category are all non-empty. */
  function CheckRequired(title: string, content: string, category: string): (error: Option<string>)
    ensures error.None? <==> title != "" && content != "" && category != ""
    ensures error.Some? ==> error.value == RequiredFieldsMessage
  {
    if title == "" || content == "" || category == "" then Some(RequiredFieldsMessage) else None
  }

  /** `s` without its repeated elements, keeping first occurrences. */
  function Distinct(s: seq<string>): (r: seq<string>)
    ensures forall x :: x in r <==> x in s
    ensures forall i, j :: 0 <= i < j < |r| ==> r[i] != r[j]
  {
    if s == [] then []
    else
      var d := Distinct(s[..|s| - 1]);
      assert forall x :: x in s <==> x in s[..|s| - 1] || x == s[|s| - 1];
      if s[|s| - 1] in d then d else d + [s[|s| - 1]]
  }

  /** `list(set(default_categories + existing_categories))`: each default and
      each existing category, once. */
  function CategoryOptions(existing: seq<string>): (options: seq<string>)
    ensures forall c :: c in options <==> c in DefaultCategories || c in existing
    ensures forall i, j :: 0 <= i < j < |options| ==> options[i] != options[j]
    ensures |options| >= |DefaultCategories|
  {
    var all := DefaultCategories + existing;
    var options := Distinct(all);
    assert forall c :: c in DefaultCategories ==> c in all;
    DistinctDefaults(options);
    options
  }

  lemma DistinctDefaults(options: seq<string>)
    requires forall c :: c in DefaultCategories ==> c in options
    requires forall i, j :: 0 <= i < j < |options| ==> options[i] != options[j]
    ensures |options| >= |DefaultCategories|
  {
    var defaults := set c | c in DefaultCategories;
    assert |defaults| == 5 by {
      assert defaults == {"General", "Technical", "Process", "Project", "Research"};
    }
    var present := set c | c in options;
    assert defaults <= present;
    DistinctCardinality(options);
    assert present == defaults + (present - defaults);
  }

  lemma {:induction false} DistinctCardinality(s: seq<string>)
    requires forall i, j :: 0 <= i < j < |s| ==> s[i] != s[j]
    ensures |set c | c in s| == |s|
  {
    if s != [] {
      var last := s[|s| - 1];
      var init := s[..|s| - 1];
      DistinctCardinality(init);
      assert (set c | c in s) == (set c | c in init) + {last};
      assert last !in (set c | c in init);
    }
  }

  /** Lines 333-336: `options.index(category)`, or 0 when it is absent. */
  function CategoryIndex(options: seq<string>, category: string): (i: nat)
    ensures category in options ==> i < |options| && options[i] == category
                                     && forall j :: 0 <= j < i ==> options[j] != category
    ensures category !in options ==> i == 0
  {
    if options == [] then 0
    else if options[0] == category then 0
    else if category in options[1..] then 1 + CategoryIndex(options[1..], category)
    else 0
  }

  /** A session key the edit form owns. */
  predicate IsEditKey(key: string)
  {
    |key| >= 5 && key[..5] == "edit_"
  }

  /** Lines 391-393 and 419-421: delete every session key that starts with
      "edit_"; every other key keeps its value. */
  method ClearEditKeys(s: SessionState)
    modifies s
    ensures s.vars == map k | k in old(s.vars) && !IsEditKey(k) :: old(s.vars)[k]
  {
    ghost var orig := s.vars;
    var keys := s.vars.Keys;
    while keys != {}
      invariant keys <= orig.Keys
      invariant s.vars == map k | k in orig && (k in keys || !IsEditKey(k)) :: orig[k]
      decreases keys
    {
      var key :| key in keys;
      if IsEditKey(key) {
        s.vars := s.vars - {key};
      }
      keys := keys - {key};
    }
  }
}
