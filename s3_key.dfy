/**
 * The object key the CSV is uploaded under: the configured CSV name with its extension
 * replaced by `.csv`, the extension being split off as POSIX `os.path.splitext` does.
 */
module S3Key {
  import opened Wrappers

  /** `s.rfind(c)`: the index of the last `c` in `s`, or -1 when there is none. */
  function RFind(s: string, c: char): (r: int)
    ensures -1 <= r < |s|
    ensures r >= 0 ==> s[r] == c
    ensures forall i :: r < i < |s| ==> s[i] != c
    decreases |s|
  {
    if s == [] then -1
    else if s[|s| - 1] == c then |s| - 1
    else RFind(s[..|s| - 1], c)
  }

  /** The last path component of `root` holds a character other than `.`: it has a stem and is not all dots. */
  predicate HasStem(root: string)
  {
    exists i :: 0 <= i < |root| && root[i] != '.' && root[i] != '/' && NoSlashAfter(root, i)
  }

  /** No `/` stands after index `i`. */
  predicate NoSlashAfter(s: string, i: nat)
  {
    forall j :: i < j < |s| ==> s[j] != '/'
  }

  /**
   * `root + ext` splits off an extension: `ext` is a `.` followed by neither `.` nor `/`,
   * and the last path component of `root` has a stem, so a leading dot is part of the name.
   */
  predicate ExtensionSplit(root: string, ext: string)
  {
    |ext| >= 1 && ext[0] == '.' && (forall i :: 1 <= i < |ext| ==> ext[i] != '.' && ext[i] != '/') && HasStem(root)
  }

  /**
   * `os.path.splitext` on a POSIX path: cut before the last `.` when it lies in the last path
   * component and some character of that component before it is not a `.`; otherwise no extension.
   */
  function SplitExt(p: string): (r: (string, string))
    ensures r.0 + r.1 == p
  {
    var sep := RFind(p, '/');
    var dot := RFind(p, '.');
    if dot > sep && exists i :: sep < i < dot && p[i] != '.' then (p[..dot], p[dot..]) else (p, "")
  }

  /** Whatever `SplitExt` cuts off is an extension. */
  lemma SplitExtSound(p: string)
    requires SplitExt(p).1 != ""
    ensures ExtensionSplit(SplitExt(p).0, SplitExt(p).1)
  {
    var sep := RFind(p, '/');
    var dot := RFind(p, '.');
    var i :| sep < i < dot && p[i] != '.';
    var root, ext := p[..dot], p[dot..];
    assert root[i] != '.' && root[i] != '/' && NoSlashAfter(root, i);
    assert forall j :: 1 <= j < |ext| ==> ext[j] == p[dot + j];
  }

  /** An extension split of `p` is the one `SplitExt` makes: there is at most one, and it is found. */
  lemma SplitExtUnique(p: string, k: int)
    requires 0 <= k <= |p|
    requires ExtensionSplit(p[..k], p[k..])
    ensures SplitExt(p) == (p[..k], p[k..])
  {
    var root, ext := p[..k], p[k..];
    var sep := RFind(p, '/');
    var dot := RFind(p, '.');
    assert p[k] == ext[0] == '.';
    assert forall j :: k < j < |p| ==> p[j] == ext[j - k];
    assert dot == k;
    var i :| 0 <= i < |root| && root[i] != '.' && root[i] != '/' && NoSlashAfter(root, i);
    assert p[i] == root[i];
    assert forall j :: i < j < k ==> p[j] == root[j];
    assert sep < i;
  }

  /** With no extension split, `SplitExt` cuts nothing off. */
  lemma SplitExtNone(p: string)
    requires forall k :: 0 <= k <= |p| ==> !ExtensionSplit(p[..k], p[k..])
    ensures SplitExt(p) == (p, "")
  {
    if SplitExt(p).1 != "" {
      SplitExtSound(p);
      assert false;
    }
  }

  /**
   * `build_s3_key`: the CSV name without its extension, then `.csv`. An unset name makes
   * `os.path.splitext` raise, which is `None` here.
   */
  function BuildS3Key(csvName: Option<string>): (r: Option<string>)
    ensures r.None? <==> csvName.None?
    ensures r.Some? ==> |r.value| >= 4 && r.value[|r.value| - 4..] == ".csv"
  {
    match csvName
    case None => None
    case Some(name) => Some(SplitExt(name).0 + ".csv")
  }

  /** A name with an extension has that extension, and only it, replaced by `.csv`. */
  lemma ReplacesExtension(root: string, ext: string)
    requires ExtensionSplit(root, ext)
    ensures BuildS3Key(Some(root + ext)) == Some(root + ".csv")
  {
    var p := root + ext;
    assert p[..|root|] == root && p[|root|..] == ext;
    SplitExtUnique(p, |root|);
  }

  /** A name without an extension is kept whole and gets `.csv` appended. */
  lemma AppendsWithoutExtension(name: string)
    requires forall k :: 0 <= k <= |name| ==> !ExtensionSplit(name[..k], name[k..])
    ensures BuildS3Key(Some(name)) == Some(name + ".csv")
  {
    SplitExtNone(name);
  }

  /** When the base name has a stem the key is a fixed point: building it again changes nothing. */
  lemma KeyStable(name: string)
    requires HasStem(SplitExt(name).0)
    ensures BuildS3Key(BuildS3Key(Some(name))) == BuildS3Key(Some(name))
  {
    ReplacesExtension(SplitExt(name).0, ".csv");
  }

  /** A leading dot is part of the name: `.env` becomes `.env.csv`. */
  lemma DotFileKeepsName()
    ensures BuildS3Key(Some(".env")) == Some(".env.csv")
  {
    var p := ".env";
    assert p[0] == '.' && p[1] == 'e' && p[2] == 'n' && p[3] == 'v';
    assert RFind(p, '.') == 0 && RFind(p, '/') == -1;
    assert SplitExt(p) == (p, "");
    assert p + ".csv" == ".env.csv";
  }

  /** `menu.txt` becomes `menu.csv`. */
  lemma ExtensionReplacedExample()
    ensures BuildS3Key(Some("menu.txt")) == Some("menu.csv")
  {
    var p := "menu.txt";
    assert p[..4] == "menu" && p[4..] == ".txt";
    assert ".txt"[1] == 't' && ".txt"[2] == 'x' && ".txt"[3] == 't';
    assert HasStem("menu") by {
      assert "menu"[0] != '.' && "menu"[0] != '/' && NoSlashAfter("menu", 0);
    }
    assert ExtensionSplit("menu", ".txt");
    ReplacesExtension("menu", ".txt");
    assert "menu" + ".txt" == p && "menu" + ".csv" == "menu.csv";
  }

  /** Without a stem the key is not stable: an empty name gives `.csv`, which then gives `.csv.csv`. */
  lemma EmptyNameNotStable()
    ensures BuildS3Key(Some("")) == Some(".csv")
    ensures BuildS3Key(Some(".csv")) == Some(".csv.csv")
  {
    var p := ".csv";
    assert p[0] == '.' && p[1] == 'c' && p[2] == 's' && p[3] == 'v';
    assert RFind(p, '.') == 0 && RFind(p, '/') == -1;
    assert SplitExt(p) == (p, "");
    assert p + ".csv" == ".csv.csv";
    assert SplitExt("") == ("", "");
    assert "" + ".csv" == ".csv";
  }
}
