/** The issues a check has found so far (tools/fsck_northstar.c, add_issue and set_fatal). */
module FsckReport {
  class Report {
    var errors: nat
    var warnings: nat
    var fatal: bool

    constructor ()
      ensures errors == 0 && warnings == 0 && !fatal
    {
      errors, warnings, fatal := 0, 0, false;
    }

    method Error()
      modifies this
      ensures errors == old(errors) + 1 && warnings == old(warnings) && fatal == old(fatal)
    {
      errors := errors + 1;
    }

    method Warning()
      modifies this
      ensures errors == old(errors) && warnings == old(warnings) + 1 && fatal == old(fatal)
    {
      warnings := warnings + 1;
    }

    method Fatal()
      modifies this
      ensures errors == old(errors) && warnings == old(warnings) && fatal
    {
      fatal := true;
    }
  }
}
