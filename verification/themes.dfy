/**
 * `set_random_theme`: pick a theme of the requested mode and hand it to the external
 * theme command. The catalog is an input (reading the theme directory is not modelled),
 * the random pick is any element of the bucket, and the command's outcome is an input.
 */
module Themes {
  import opened Wrappers

  datatype Mode = Light | Dark

  type ThemeId = string

  /** Theme names by mode, as the theme directory lists them. */
  type Catalog = map<Mode, seq<ThemeId>>

  /** `themes.get(mode, [])`. */
  function Bucket(catalog: Catalog, mode: Mode): seq<ThemeId> {
    if mode in catalog then catalog[mode] else []
  }

  /**
   * How the external theme command ends: it succeeds; it fails in a way the function
   * catches and reports as False (a non-zero exit, a missing executable); or it raises
   * an error the function does not catch (another `OSError`, such as a command that
   * exists but cannot be executed), which leaves the call without a result.
   */
  datatype CommandResult = Succeeded | Failed | Raised

  /**
   * What one call did: the theme picked, whether the command ran, the returned flag,
   * and whether the call ended by raising instead of returning.
   */
  datatype Selection = Selection(choice: Option<ThemeId>, invoked: bool, ok: bool, raised: bool)

  /**
   * What every call guarantees whatever the command's outcome: a pick exactly when the
   * bucket is non-empty and from that bucket, the command run exactly for a pick outside
   * dry-run, success only with a pick, always success for a dry-run pick, and a raise
   * only from a command that ran, with no success.
   */
  predicate Consistent(catalog: Catalog, mode: Mode, dryRun: bool, sel: Selection) {
    && (sel.choice.None? <==> Bucket(catalog, mode) == [])
    && (sel.choice.Some? ==> sel.choice.value in Bucket(catalog, mode))
    && (sel.invoked <==> sel.choice.Some? && !dryRun)
    && (sel.ok ==> sel.choice.Some?)
    && (dryRun && sel.choice.Some? ==> sel.ok)
    && (sel.raised ==> sel.invoked && !sel.ok)
  }

  /**
   * An empty or missing bucket gives False and runs nothing; otherwise the pick is in
   * the bucket, dry-run gives True without running the command, and a run gives True
   * exactly when the command succeeds and raises exactly when the command raises.
   */
  method SetRandomTheme(mode: Mode, catalog: Catalog, dryRun: bool, command: CommandResult)
    returns (sel: Selection)
    ensures Consistent(catalog, mode, dryRun, sel)
    ensures sel.ok <==> sel.choice.Some? && (dryRun || command == Succeeded)
    ensures sel.raised <==> sel.invoked && command == Raised
  {
    var options := Bucket(catalog, mode);
    if options == [] {
      return Selection(None, false, false, false);
    }
    assert options[0] in options;
    var choice :| choice in options;
    if dryRun {
      return Selection(Some(choice), false, true, false);
    }
    match command
    case Succeeded => sel := Selection(Some(choice), true, true, false);
    case Failed => sel := Selection(Some(choice), true, false, false);
    case Raised => sel := Selection(Some(choice), true, false, true);
  }
}
