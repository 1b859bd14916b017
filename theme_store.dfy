/** The theme store (client/src/stores/theme.js): the dark/light flag, its
    persistence under the key 'theme', and the matching class on the
    document's root element. */
module ThemeStore {
  import opened Wrappers
  import opened KeyValue

  const ThemeKey := "theme"
  const DarkClass := "dark-theme"
  const LightClass := "light-theme"

  /** The root element's class list. */
  class DocumentRoot {
    var classes: set<string>

    constructor (classes: set<string>)
      ensures this.classes == classes
    {
      this.classes := classes;
    }
  }

  /** The root's classes after applyTheme: the theme's own class added,
      the other one removed. */
  function ThemeClasses(classes: set<string>, isDark: bool): (r: set<string>)
    ensures DarkClass in r <==> isDark
    ensures LightClass in r <==> !isDark
    ensures forall c :: c != DarkClass && c != LightClass ==> (c in r <==> c in classes)
  {
    if isDark then classes + {DarkClass} - {LightClass} else classes + {LightClass} - {DarkClass}
  }

  /** What loadTheme reads as dark: exactly the saved text 'dark'; an
      absent value or any other gives light. */
  function SavedIsDark(saved: Option<StoredValue>): (dark: bool)
    ensures dark <==> saved == Some(Text("dark"))
  {
    saved.Some? && saved.value == Text("dark")
  }

  /** The text setTheme saves. */
  function ThemeText(isDark: bool): (t: string)
    ensures t == "dark" <==> isDark
  {
    if isDark then "dark" else "light"
  }

  /** Saving a flag and reading it back gives the same flag. */
  lemma LoadAfterSave(entries: map<string, StoredValue>, isDark: bool)
    ensures SavedIsDark(Lookup(entries[ThemeKey := Text(ThemeText(isDark))], ThemeKey)) == isDark
  {
  }

  /** Applying the theme twice is applying it once. */
  lemma ApplyIdempotent(classes: set<string>, isDark: bool)
    ensures ThemeClasses(ThemeClasses(classes, isDark), isDark) == ThemeClasses(classes, isDark)
  {
  }

  class Theme {
    var isDark: bool
    const store: KeyValueStore
    const root: DocumentRoot

    /** The initial state: light. */
    constructor (store: KeyValueStore, root: DocumentRoot)
      ensures !isDark && this.store == store && this.root == root
    {
      isDark := false;
      this.store := store;
      this.root := root;
    }

    /** The root shows exactly the theme the flag names. */
    ghost predicate Applied()
      reads this, root
    {
      (DarkClass in root.classes <==> isDark) && (LightClass in root.classes <==> !isDark)
    }

    method ApplyTheme()
      modifies root
      ensures root.classes == ThemeClasses(old(root.classes), isDark)
      ensures Applied()
    {
      if isDark {
        root.classes := root.classes + {DarkClass};
        root.classes := root.classes - {LightClass};
      } else {
        root.classes := root.classes + {LightClass};
        root.classes := root.classes - {DarkClass};
      }
    }

    /** loadTheme: the flag from the saved value, then applyTheme. */
    method LoadTheme()
      modifies this, root
      ensures isDark == SavedIsDark(Lookup(store.entries, ThemeKey))
      ensures root.classes == ThemeClasses(old(root.classes), isDark)
      ensures Applied()
    {
      var saved := store.Get(ThemeKey);
      if saved.Some? {
        isDark := saved.value == Text("dark");
      } else {
        isDark := false;
      }
      ApplyTheme();
    }

    /** setTheme: the flag, then the saved text, then applyTheme. */
    method SetTheme(dark: bool)
      modifies this, store, root
      ensures isDark == dark
      ensures store.entries == old(store.entries)[ThemeKey := Text(ThemeText(dark))]
      ensures root.classes == ThemeClasses(old(root.classes), dark)
      ensures Applied()
    {
      isDark := dark;
      store.Set(ThemeKey, Text(if dark then "dark" else "light"));
      ApplyTheme();
    }

    /** toggleTheme: setTheme with the flag flipped. */
    method ToggleTheme()
      modifies this, store, root
      ensures isDark == !old(isDark)
      ensures store.entries == old(store.entries)[ThemeKey := Text(ThemeText(isDark))]
      ensures root.classes == ThemeClasses(old(root.classes), isDark)
      ensures Applied()
    {
      SetTheme(!isDark);
    }
  }

  /** A theme set and then loaded again (as at the next start) is the theme
      that was set. */
  method SetThenLoad(t: Theme, dark: bool)
    modifies t, t.store, t.root
    ensures t.isDark == dark && t.Applied()
  {
    t.SetTheme(dark);
    LoadAfterSave(old(t.store.entries), dark);
    t.LoadTheme();
  }
}
