/**
 * The project dialog (frontend/src/components/ProjectForm.js): while a new project's name is typed
 * its key is derived from the initials of the words, and a project without a name or key is not
 * sent. Upper-casing is modelled on ASCII letters only.
 */
module ProjectForm {
  import opened Wrappers
  import opened Seqs
  import opened Text

  /** `toUpperCase` on one character, for the ASCII letters; other characters are kept. */
  function Upper(c: char): (u: char)
    ensures 'a' <= c <= 'z' ==> 'A' <= u <= 'Z' && u as int == c as int - 32
    ensures !('a' <= c <= 'z') ==> u == c
  {
    if 'a' <= c <= 'z' then (c as int - 32) as char else c
  }

  /** A character `/[^A-Z0-9\s]/g` leaves in place. */
  predicate Kept(c: char) {
    ('A' <= c <= 'Z') || ('0' <= c <= '9') || IsSpace(c)
  }

  /** `toUpperCase()` on a whole text, character by character. */
  function UpperAll(s: string): (r: string)
    ensures |r| == |s|
    ensures forall k :: 0 <= k < |s| ==> r[k] == Upper(s[k])
  {
    seq(|s|, k requires 0 <= k < |s| => Upper(s[k]))
  }

  /** `toUpperCase().replace(/[^A-Z0-9\s]/g, '')`: the upper-cased text without the other characters. */
  function Cleaned(s: string): (r: string)
    ensures |r| <= |s|
    ensures forall k :: 0 <= k < |r| ==> Kept(r[k])
  {
    if s == [] then []
    else (if Kept(Upper(s[0])) then [Upper(s[0])] else []) + Cleaned(s[1..])
  }

  /** Cleaning is upper-casing every character and then keeping exactly those `Kept` allows, in order. */
  lemma {:induction false} CleanedIsFilter(s: string)
    ensures Cleaned(s) == Filter(UpperAll(s), Kept)
  {
    if s != [] {
      assert UpperAll(s)[0] == Upper(s[0]) && UpperAll(s)[1..] == UpperAll(s[1..]);
      CleanedIsFilter(s[1..]);
    }
  }

  /** One character is upper-cased and kept, or dropped. */
  lemma CleanedOne(c: char)
    ensures Cleaned([c]) == if Kept(Upper(c)) then [Upper(c)] else []
  {
    assert [c][1..] == [];
  }

  /** Cleaning works character by character: cleaning two texts one after the other cleans each. */
  lemma {:induction false} CleanedAppend(a: string, b: string)
    ensures Cleaned(a + b) == Cleaned(a) + Cleaned(b)
  {
    if a == [] {
      assert a + b == b;
    } else {
      assert (a + b)[0] == a[0] && (a + b)[1..] == a[1..] + b;
      CleanedAppend(a[1..], b);
    }
  }

  /** Text made of kept characters only is left as it is; in particular cleaning twice changes nothing. */
  lemma {:induction false} CleanedKeepsClean(s: string)
    requires forall k :: 0 <= k < |s| ==> Kept(s[k])
    ensures Cleaned(s) == s
  {
    if s != [] {
      assert Upper(s[0]) == s[0];
      CleanedKeepsClean(s[1..]);
    }
  }

  /** Cleaning is idempotent. */
  lemma CleanedIdempotent(s: string)
    ensures Cleaned(Cleaned(s)) == Cleaned(s)
  {
    CleanedKeepsClean(Cleaned(s));
  }

  /** Words joined with single spaces: the inverse of `split(' ')`. */
  function Join(words: seq<string>): (s: string)
    requires |words| >= 1
    ensures |s| >= |words| - 1
  {
    if |words| == 1 then words[0] else words[0] + " " + Join(words[1..])
  }

  /** No word holds a space. */
  predicate SpaceFree(words: seq<string>) {
    forall i :: 0 <= i < |words| ==> ' ' !in words[i]
  }

  /**
   * `split(' ')`: the text cut at every space (only U+0020, not other white space), empty words
   * included, so there is always at least one word.
   */
  function SplitSpaces(s: string): (words: seq<string>)
    ensures |words| >= 1 && SpaceFree(words)
    ensures Join(words) == s
  {
    if s == [] then [[]]
    else
      var rest := SplitSpaces(s[1..]);
      if s[0] == ' ' then
        assert Join([[]] + rest) == [] + " " + Join(rest);
        [[]] + rest
      else
        var words := [[s[0]] + rest[0]] + rest[1..];
        assert ' ' !in [s[0]] + rest[0];
        assert forall i :: 1 <= i < |words| ==> words[i] == rest[i];
        JoinHead(rest, [s[0]] + rest[0]);
        words
  }

  /** Replacing the first word changes only the front of the join. */
  lemma JoinHead(words: seq<string>, w: string)
    requires |words| >= 1
    ensures Join([w] + words[1..]) == w + Join(words)[|words[0]|..]
  {
    if |words| > 1 {
      assert ([w] + words[1..])[1..] == words[1..];
    }
  }

  /** A space-free word in front of text joins onto the first word of its split. */
  lemma {:induction false} SplitWordPrefix(w: string, s: string)
    requires ' ' !in w
    ensures SplitSpaces(w + s) == [w + SplitSpaces(s)[0]] + SplitSpaces(s)[1..]
  {
    if w != [] {
      assert (w + s)[0] == w[0] && (w + s)[1..] == w[1..] + s;
      SplitWordPrefix(w[1..], s);
      assert [w[0]] + (w[1..] + SplitSpaces(s)[0]) == w + SplitSpaces(s)[0];
    } else {
      var p := SplitSpaces(s);
      assert w + s == s && w + p[0] == p[0];
      assert p == [p[0]] + p[1..];
    }
  }

  /** Splitting undoes joining words without spaces: `split(' ')` recovers the words. */
  lemma {:induction false} SplitJoin(words: seq<string>)
    requires |words| >= 1 && SpaceFree(words)
    ensures SplitSpaces(Join(words)) == words
  {
    var w := words[0];
    assert ' ' !in w;
    if |words| == 1 {
      SplitWordPrefix(w, []);
      assert w + [] == w;
    } else {
      var rest := Join(words[1..]);
      assert SpaceFree(words[1..]) by {
        assert forall i :: 0 <= i < |words[1..]| ==> words[1..][i] == words[i + 1];
      }
      SplitJoin(words[1..]);
      assert Join(words) == w + (" " + rest);
      SplitWordPrefix(w, " " + rest);
      assert (" " + rest)[0] == ' ' && (" " + rest)[1..] == rest;
      assert SplitSpaces(" " + rest) == [[]] + words[1..];
      assert w + [] == w;
    }
  }

  /** `map(word => word.charAt(0)).join('')`: the first character of every non-empty word, in order. */
  function Initials(words: seq<string>): (r: string)
    ensures |r| <= |words|
    ensures forall k :: 0 <= k < |r| ==> exists i :: 0 <= i < |words| && words[i] != [] && words[i][0] == r[k]
  {
    if words == [] then []
    else
      var rest := Initials(words[1..]);
      assert forall i :: 1 <= i < |words| ==> words[i] == words[1..][i - 1];
      (if words[0] == [] then [] else [words[0][0]]) + rest
  }

  /** Initials of two runs of words one after the other are the initials of each, in order. */
  lemma {:induction false} InitialsAppend(a: seq<string>, b: seq<string>)
    ensures Initials(a + b) == Initials(a) + Initials(b)
  {
    if a != [] {
      assert (a + b)[0] == a[0] && (a + b)[1..] == a[1..] + b;
      InitialsAppend(a[1..], b);
    } else {
      assert a + b == b;
    }
  }

  /** An empty word, as two spaces in a row leave, contributes nothing to the key. */
  lemma EmptyWordSkipped(a: seq<string>, b: seq<string>)
    ensures Initials(a + [[]] + b) == Initials(a + b)
  {
    var e: seq<string> := [[]];
    assert Initials(e) == [] by {
      assert e[1..] == [];
    }
    InitialsAppend(a + e, b);
    InitialsAppend(a, e);
    InitialsAppend(a, b);
  }

  /** Every word's first character when no word is empty. */
  lemma {:induction false} InitialsOfWords(words: seq<string>)
    requires forall i :: 0 <= i < |words| ==> words[i] != []
    ensures |Initials(words)| == |words|
    ensures forall i :: 0 <= i < |words| ==> Initials(words)[i] == words[i][0]
  {
    if words != [] {
      InitialsOfWords(words[1..]);
    }
  }

  /** `substring(0, n)`: the first `n` characters, or all of them when there are fewer. */
  function Take(s: string, n: nat): (r: string)
    ensures |r| == if |s| <= n then |s| else n
    ensures r == s[..|r|]
  {
    if |s| <= n then s else s[..n]
  }

  /** Longest key the name produces. */
  const MaxKeyLength: nat := 10

  /** A character a derived key may hold: a capital, a digit, or white space other than a plain space. */
  predicate KeyChar(c: char) {
    ('A' <= c <= 'Z') || ('0' <= c <= '9') || (IsSpace(c) && c != ' ')
  }

  /**
   * The key derived from a project name: the initials of its space-separated words after cleaning,
   * at most ten of them. No plain space survives, since no word holds one.
   */
  function DeriveKey(name: string): (key: string)
    ensures |key| <= MaxKeyLength
    ensures forall k :: 0 <= k < |key| ==> KeyChar(key[k])
  {
    var cleaned := Cleaned(name);
    var words := SplitSpaces(cleaned);
    var initials := Initials(words);
    forall k | 0 <= k < |initials| ensures KeyChar(initials[k]) {
      var i :| 0 <= i < |words| && words[i] != [] && words[i][0] == initials[k];
      assert Kept(initials[k]) by {
        CharOfJoin(words, i, 0);
      }
    }
    Take(initials, MaxKeyLength)
  }

  /** A character of a word is a character of the joined text. */
  lemma {:induction false} CharOfJoin(words: seq<string>, i: nat, j: nat)
    requires i < |words| && j < |words[i]| && |words| >= 1
    ensures words[i][j] in Join(words)
  {
    if |words| > 1 {
      if i == 0 {
        assert Join(words) == words[0] + " " + Join(words[1..]);
        assert Join(words)[j] == words[0][j];
      } else {
        CharOfJoin(words[1..], i - 1, j);
        assert Join(words) == words[0] + " " + Join(words[1..]);
      }
    }
  }

  /** A character that upper-casing and filtering remove leaves the key as it was, wherever it is typed. */
  lemma DeriveKeyIgnoresRemoved(a: string, c: char, b: string)
    requires !Kept(Upper(c))
    ensures DeriveKey(a + [c] + b) == DeriveKey(a + b)
  {
    CleanedAppend(a + [c], b);
    CleanedAppend(a, [c]);
    CleanedAppend(a, b);
    CleanedOne(c);
    assert Cleaned(a) + [] == Cleaned(a);
  }

  /** A word as typed between single spaces: no plain space, and every character survives cleaning. */
  predicate TypedWord(w: string) {
    forall j :: 0 <= j < |w| ==> w[j] != ' ' && Kept(Upper(w[j]))
  }

  /** Every word upper-cased. */
  function UpperWords(words: seq<string>): (r: seq<string>)
    ensures |r| == |words|
    ensures forall i :: 0 <= i < |words| ==> r[i] == UpperAll(words[i])
  {
    seq(|words|, i requires 0 <= i < |words| => UpperAll(words[i]))
  }

  /** A word whose characters all survive cleaning is only upper-cased. */
  lemma {:induction false} CleanedWord(w: string)
    requires forall j :: 0 <= j < |w| ==> Kept(Upper(w[j]))
    ensures Cleaned(w) == UpperAll(w)
  {
    if w != [] {
      CleanedWord(w[1..]);
      assert UpperAll(w) == [Upper(w[0])] + UpperAll(w[1..]);
    }
  }

  /** Cleaning words of surviving characters joined by single spaces upper-cases each word. */
  lemma {:induction false} CleanedJoin(words: seq<string>)
    requires |words| >= 1 && forall i :: 0 <= i < |words| ==> TypedWord(words[i])
    ensures Cleaned(Join(words)) == Join(UpperWords(words))
  {
    CleanedWord(words[0]);
    if |words| > 1 {
      var rest := Join(words[1..]);
      assert Join(words) == words[0] + (" " + rest);
      CleanedAppend(words[0], " " + rest);
      CleanedAppend(" ", rest);
      CleanedOne(' ');
      CleanedJoin(words[1..]);
      var u := UpperWords(words);
      assert UpperWords(words[1..]) == u[1..];
      assert Join(u) == u[0] + " " + Join(u[1..]);
    }
  }

  /**
   * For a name typed as words separated by single spaces, with no character that cleaning removes, the
   * key is the upper-cased first character of each of the first ten words: "my project" gives "MP".
   * With `DeriveKeyIgnoresRemoved` and `EmptyWordSkipped` this covers every name.
   */
  lemma DeriveKeyOfWords(words: seq<string>)
    requires |words| >= 1 && forall i :: 0 <= i < |words| ==> words[i] != [] && TypedWord(words[i])
    ensures |DeriveKey(Join(words))| == if |words| <= MaxKeyLength then |words| else MaxKeyLength
    ensures forall i :: 0 <= i < |DeriveKey(Join(words))| ==> DeriveKey(Join(words))[i] == Upper(words[i][0])
  {
    var u := UpperWords(words);
    CleanedJoin(words);
    assert SpaceFree(u) by {
      forall i, j | 0 <= i < |u| && 0 <= j < |u[i]| ensures u[i][j] != ' ' {
        assert TypedWord(words[i]);
      }
    }
    SplitJoin(u);
    InitialsOfWords(u);
  }

  /** The everyday case: a new project called "my project" gets the key "MP". */
  lemma MyProjectKey()
    ensures DeriveKey("my project") == "MP"
  {
    var words := ["my", "project"];
    assert Join(words) == "my project";
    DeriveKeyOfWords(words);
  }

  /** Every character of a join is a space or a character of one of the words. */
  lemma {:induction false} JoinChar(words: seq<string>, k: nat)
    requires |words| >= 1 && k < |Join(words)|
    ensures Join(words)[k] == ' ' || exists i, j :: 0 <= i < |words| && 0 <= j < |words[i]| && words[i][j] == Join(words)[k]
  {
    if |words| > 1 {
      var w := words[0];
      assert Join(words) == w + " " + Join(words[1..]);
      if k > |w| {
        JoinChar(words[1..], k - |w| - 1);
        if Join(words)[k] != ' ' {
          var i, j :| 0 <= i < |words[1..]| && 0 <= j < |words[1..][i]| && words[1..][i][j] == Join(words[1..])[k - |w| - 1];
          assert words[i + 1][j] == Join(words)[k];
        }
      } else if k < |w| {
        assert words[0][k] == Join(words)[k];
      }
    } else {
      assert words[0][k] == Join(words)[k];
    }
  }

  /** The fields of the project dialog the key logic and the checks read. */
  datatype ProjectFormData = ProjectFormData(name: string, key: string, description: string)

  /** The text fields a change can come from. */
  datatype ProjectField = NameField | KeyField | DescriptionField

  /**
   * `handleChange`: the field takes the typed value; when it is the name of a new project (not an
   * edit), the key is replaced by the one derived from it, overwriting any key typed before.
   */
  function HandleChange(form: ProjectFormData, field: ProjectField, value: string, isEdit: bool): (r: ProjectFormData)
    ensures field == NameField ==> r.name == value && r.description == form.description
    ensures field == NameField && !isEdit ==> r.key == DeriveKey(value)
    ensures field == NameField && isEdit ==> r.key == form.key
    ensures field == KeyField ==> r == form.(key := value)
    ensures field == DescriptionField ==> r == form.(description := value)
  {
    match field
    case NameField =>
      var named := form.(name := value);
      if !isEdit then named.(key := DeriveKey(value)) else named
    case KeyField => form.(key := value)
    case DescriptionField => form.(description := value)
  }

  /**
   * `handleSubmit` up to the request: a name that trims to nothing is reported first, then a key
   * that trims to nothing; otherwise the form is sent as typed, untrimmed.
   */
  function Submit(form: ProjectFormData): (r: Result<ProjectFormData, string>)
    ensures r.Success? <==> !AllSpace(form.name) && !AllSpace(form.key)
    ensures r.Success? ==> r.value == form
    ensures r.Failure? ==> r.error == (if AllSpace(form.name) then "Project name is required" else "Project key is required")
  {
    BlankIffAllSpace(form.name);
    BlankIffAllSpace(form.key);
    if Trim(form.name) == [] then Failure("Project name is required")
    else if Trim(form.key) == [] then Failure("Project key is required")
    else Success(form)
  }

  /**
   * A new project named with typed words, the first starting with a character other than white space,
   * can be sent once the name is typed: the derived key holds the first word's initial, so it is not blank.
   */
  lemma NamedProjectSubmits(form: ProjectFormData, words: seq<string>)
    requires |words| >= 1 && forall i :: 0 <= i < |words| ==> words[i] != [] && TypedWord(words[i])
    requires !IsSpace(words[0][0])
    ensures Submit(HandleChange(form, NameField, Join(words), false)).Success?
  {
    KeyOfTypedNameNotBlank(words);
    var name := Join(words);
    assert name[0] == words[0][0] by {
      if |words| > 1 {
        assert name == words[0] + " " + Join(words[1..]);
      }
    }
    assert !AllSpace(name);
    var r := HandleChange(form, NameField, name, false);
    assert r.name == name && r.key == DeriveKey(name);
  }

  /** The key of such a name starts with the upper case of its first character, which is not white space. */
  lemma KeyOfTypedNameNotBlank(words: seq<string>)
    requires |words| >= 1 && forall i :: 0 <= i < |words| ==> words[i] != [] && TypedWord(words[i])
    requires !IsSpace(words[0][0])
    ensures !AllSpace(DeriveKey(Join(words)))
  {
    var c := words[0][0];
    assert !IsSpace(Upper(c)) by {
      if 'a' <= c <= 'z' {
        assert 'A' <= Upper(c) <= 'Z';
      }
    }
    DeriveKeyOfWords(words);
    assert DeriveKey(Join(words))[0] == Upper(c);
  }
}
