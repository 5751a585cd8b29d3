# Automatic screening: a Dafny model

This project models the core of *app-automatic-screening*, a web application
that supports systematic literature reviews. Researchers register and log in.
They create a **research** with inclusion criteria and load bibliographic
**articles** from PubMed/CSV/Excel files into **datasets**. An LLM labels each
article as included or excluded (**AI labels**). The researchers train classical
**ML models** (with a version number that grows per research) and store their
**predictions**.

The model covers three layers:

- **The database layer** (the SQLAlchemy classes under `modules/models`). A
  table is a sequence of rows in insertion order, a row is a map from column
  name to value, and every class method is a pure function on tables. Lookups
  return what `.filter_by(...).first()` returns, taking rows in insertion
  order (see "Query order" under Left out). Failures are modelled as
  `Outcome.Raised` with the message the class raises. Two messages come from
  elsewhere: `generate_version` reports its `AttributeError` only as its own
  generic version error, and column selection in the loader raises pandas'
  `KeyError` text, which lists the missing labels. A commit checks the
  primary-key, unique and not-null constraints of the mapped columns. The
  session does not autoflush, so a query inside a request sees only the rows
  committed before it.
- **The HTTP handlers** (`modules/routes`). A handler is a function from the
  store and the request's form fields to a reply, which is the new store and
  the response. A failed handler rolls the store back, and its response
  carries the status and detail the source's `HTTPException` carries.
  Classifiers, retrievers, the clock and random identifiers are parameters.
- **The browser client** (`web/static/js`). This covers the API client and its
  `localStorage` session, the translator and its fallback, the form and value
  helpers of `utils.js`, the dashboard's flattening of researches and its
  detail view, and the login and registration pages.

Modules follow the repository's structure. `Base`, `Strings`, `Values`,
`Records`, `Store` and `JsValues` are shared definitions. There is one module
per model class, one per route file, and one per script. `Loader` models
`loader.py`, and `LlmClassify` models `llm_classify.py`.

## Model

| member | source | states |
|---|---|---|
| Strings.SplitJoin | modules/routes/app_research.py:44 | Splitting a join gives back the pieces whenever no piece can run into the separator. |
| Strings.JoinSplit | modules/models/research_managment/Research.py:122 | Joining the pieces of a split on the same separator gives back the original string. |
| Strings.TrimBothEmptyIff | modules/routes/app_user.py:86 | `strip()` yields the empty string exactly when every character is whitespace. |
| Strings.TrimBothIdempotent | modules/routes/app_research.py:89 | Stripping twice is the same as stripping once. |
| Strings.Extension | modules/routes/app_loader.py:46 | `os.path.splitext(name)[-1]`: either empty, or a dot followed by no further dot or slash, and a suffix of the name. |
| Strings.ExtensionOfSuffix | modules/routes/app_loader.py:46 | A name ending in a dot followed by a dot-free suffix has that suffix as its extension. |
| Records.FirstFrom | modules/models/users/Users.py:102-105 | The first index at or after a position whose row satisfies the filter, with no satisfying row before it. |
| Records.GetWhere | modules/models/users/Users.py:102-105 | `.filter_by(...).first()` finds a row exactly when some row matches, and the row it finds is in the table and matches. |
| Records.FirstWhereAt | modules/models/users/Users.py:102-105 | The row found is the earliest matching row. |
| Records.AllWhere | modules/models/research_managment/Datasets.py:132-151 | `.filter_by(...).all()` keeps exactly the matching rows of the table. |
| Records.AllWhereAppend | modules/models/research_managment/Datasets.py:132-151 | Filtering a concatenation filters each part and keeps table order. |
| Records.AllWhereEmptyIff | modules/models/research_managment/Research.py:80-100 | `.all()` is empty exactly when no row matches. |
| Records.AllWhereNone | modules/models/research_managment/Research.py:80-100 | A filter that no row satisfies yields no rows. |
| Records.SetKnown | modules/models/users/Users.py:52-56 | `setattr` runs for every update key that is an attribute of the row. The row keeps its columns, known keys take the new value, and other columns keep theirs. |
| Records.SetKnownDropsUnknown | modules/models/users/Users.py:52-56 | Update keys that are not attributes change nothing: leaving them out gives the same row. |
| Records.UpdateWhere | modules/models/users/Users.py:43-63 | An update raises the class's message exactly when no row matches. Otherwise only the first matching row changes. |
| Records.Deactivate | modules/models/users/Users.py:65-79 | Deactivation raises exactly when no row matches. Otherwise only the first matching row changes, and its `is_active` becomes false. |
| Records.DeleteWhere | modules/models/users/Users.py:81-95 | Delete raises exactly when no row matches. Otherwise the first match is removed and the other rows keep their order. |
| Records.DeleteKeepsOthers | modules/models/users/Users.py:81-95 | Deletion removes exactly one matching row: the multiset of rows loses that row and nothing else. |
| Records.Construct | modules/models/users/Users.py:30-41 | `cls(**dict)` raises the class's "Error adding" message exactly when a key is not a column. Otherwise the row has exactly the class's columns and carries every given value. |
| Records.Insert | modules/models/users/Users.py:30-41 | `add` appends one row after the existing ones, with the given values, or raises for an unknown key. |
| Records.ColumnMap | modules/models/users/Users.py:116-131 | The dictionary's keys are exactly the key column's values, and each maps to the value column of a row holding that key. |
| Records.ColumnMapDistinct | modules/models/users/Users.py:116-131 | With distinct keys, every row's key maps to that row's value. |
| Records.Commit | modules/models/users/Users.py:14-25 | A commit succeeds exactly when primary keys are distinct, unique columns hold no repeated value, and not-null columns hold values. |
| Records.InsertAdmissible | modules/models/users/Users.py:14-25 | A row with a fresh key, unused unique values and all required columns can be appended to a committable table. |
| Records.UpdateKeepsAdmissible | modules/models/users/Users.py:43-63 | Updating columns that carry no constraint keeps a committable table committable. |
| Records.DuplicateKeyRejected | modules/models/users/Users.py:14 | Appending a row whose primary key is taken makes the commit fail. |
| Records.FirstFresh | modules/models/users/Users.py:107-114 | The first drawn candidate that no row holds, or none when every candidate is taken. |
| Records.GenerateUniqueId | modules/models/users/Users.py:107-114 | The identifier returned is not held by any row, and it is the first fresh candidate drawn. |
| Store.CommitStore | modules/routes/app_user.py:36-42 | The shared session commits exactly when every table satisfies its constraints. Otherwise it raises the integrity error. |
| Store.ExceptionText | modules/routes/app_loader.py:118 | `str(HTTPException)` starts with the status code and ends with the detail. |
| Store.CommitOr | modules/routes/app_user.py:36-42 | A handler's commit answers the body and keeps the pending changes exactly when they are consistent. Otherwise it rolls back and answers 400 with the integrity error. |
| Store.PutGiven | modules/routes/app_user.py:86 | A form field is added to the update exactly when it is given and not blank after `strip()`. Nothing else changes. |
| Store.UploadChecks | modules/routes/app_loader.py:37-54 | An upload passes exactly when the user exists, is active and is an admin or researcher, the extension is listed, and the research exists and is active. Each failing check, in order, gives its own status: 401, 403, 403, 400, 404, 403. |
| JsValues.GetAt | web/static/js/api-client.js:295-321 | With distinct names, each property reads back its own value. |
| JsValues.GetItem | web/static/js/api-client.js:531-556 | `localStorage.getItem` is non-null exactly for stored keys and returns the stored string. |
| UsersModel.GetUsername | modules/models/users/Users.py:102-105 | The user found has the requested username. None means no row has it. |
| UsersModel.UsernameExists | modules/models/users/Users.py:97-100 | True exactly when the lookup finds a user. |
| UsersModel.Add | modules/models/users/Users.py:30-41 | Appends a user row with exactly the User columns and the given values. Raises "Error adding User" exactly when a key is not a column. |
| UsersModel.Update | modules/models/users/Users.py:43-63 | Raises "Error updating User" exactly for an unknown username. Otherwise that user's known attributes take the new values and every other row is unchanged. |
| UsersModel.Deactivate | modules/models/users/Users.py:65-79 | Raises "Error deactivating User" exactly for an unknown username. Otherwise only that user becomes inactive. |
| UsersModel.Delete | modules/models/users/Users.py:81-95 | Raises "Error deleting User" exactly for an unknown username. Otherwise exactly one row is removed. |
| UsersModel.DeleteRemovesOnlyUser | modules/models/users/Users.py:81-95 | With unique usernames, the deleted user is gone and every other user is kept. |
| UsersModel.GenerateUniqueUsername | modules/models/users/Users.py:107-114 | Returns a drawn candidate that no user holds. |
| UsersModel.GetUsers | modules/models/users/Users.py:116-131 | None exactly for an empty table. Otherwise the dictionary's keys are exactly the usernames. |
| UsersModel.GetUsersNames | modules/models/users/Users.py:116-131 | Each username maps to that user's name. |
| ResearchModel.GetId | modules/models/research_managment/Research.py:102-105 | The research found has the requested id. None means no row has it. |
| ResearchModel.Add | modules/models/research_managment/Research.py:33-44 | Appends a research row with the given values. Raises "Error adding Research" exactly for an unknown key. |
| ResearchModel.GenerateUniqueId | modules/models/research_managment/Research.py:66-73 | Returns a drawn candidate id that no research holds. |
| ResearchModel.TitleExists | modules/models/research_managment/Research.py:75-78 | True exactly when some research has the title. |
| ResearchModel.Update | modules/models/research_managment/Research.py:46-64 | Raises "Error updating Research" exactly for an unknown id. Otherwise that research takes the new known attributes and the update time, and the other rows are unchanged. |
| ResearchModel.UpdateIgnoresNameAndDescription | modules/models/research_managment/Research.py:54-58 | `name` and `description` are not Research columns, so passing them changes nothing. |
| ResearchModel.CriteriaList | modules/models/research_managment/Research.py:93 | Empty or NULL criteria read as the empty list. Stored criteria read as pieces whose join is the stored string. |
| ResearchModel.Views | modules/models/research_managment/Research.py:86-98 | One dictionary per research, in order. |
| ResearchModel.GroupIndex | modules/models/research_managment/Research.py:113-127 | The position of an owner among the dictionary's keys, or none when absent. |
| ResearchModel.AddKeepsDistinct | modules/models/research_managment/Research.py:118-127 | The grouping step never duplicates an owner key. |
| ResearchModel.AddKeepsOwners | modules/models/research_managment/Research.py:118-127 | After a grouping step, the keys are exactly the owners of the rows seen. |
| ResearchModel.AddKeepsRows | modules/models/research_managment/Research.py:118-127 | After a grouping step, each group lists its owner's rows seen so far, in order. |
| ResearchModel.GroupByOwnerSpec | modules/models/research_managment/Research.py:107-129 | The grouping loop puts every research under its owner, in table order, with one key per owner. |
| ResearchModel.GetAll | modules/models/research_managment/Research.py:107-129 | None exactly for an empty table. Otherwise the researches are grouped by owner. |
| ResearchModel.GetByOwner | modules/models/research_managment/Research.py:80-100 | `{}` exactly when the user owns nothing. Otherwise one key, the user, maps to all of the user's researches in order. |
| ResearchModel.GetByOwnerAgreesWithGetAll | modules/models/research_managment/Research.py:80-129 | One owner's listing equals that owner's group in the full listing. |
| ResearchModel.CriteriaRoundTrip | modules/routes/app_research.py:44 | Criteria joined when stored are split back into the same list, provided no criterion runs into the separator. |
| ResearchModel.CriteriaEndingInBarAmpersand | modules/routes/app_research.py:44 | A criterion ending in the separator's first two characters does not survive the round trip. |
| DatasetsModel.GetId | modules/models/research_managment/Datasets.py:101-104 | The dataset found has the requested id. None means no row has it. |
| DatasetsModel.IdExists | modules/models/research_managment/Datasets.py:96-99 | True exactly when the lookup finds a dataset. |
| DatasetsModel.Add | modules/models/research_managment/Datasets.py:29-40 | Appends a dataset row with the given values. Raises "Error adding Dataset" exactly for an unknown key. |
| DatasetsModel.Update | modules/models/research_managment/Datasets.py:42-62 | Raises "Error updating Dataset" exactly for an unknown id. Otherwise only that dataset takes the new known attributes. |
| DatasetsModel.Deactivate | modules/models/research_managment/Datasets.py:64-78 | Raises "Error deactivating Dataset" exactly for an unknown id. Otherwise only that dataset becomes inactive. |
| DatasetsModel.Delete | modules/models/research_managment/Datasets.py:80-94 | Raises "Error deleting Dataset" exactly for an unknown id. Otherwise exactly that dataset leaves the table. |
| DatasetsModel.GenerateUniqueId | modules/models/research_managment/Datasets.py:106-113 | Returns a drawn candidate id that no dataset holds. |
| DatasetsModel.GetDatasets | modules/models/research_managment/Datasets.py:115-130 | None exactly for an empty table. Otherwise the dictionary's keys are exactly the dataset ids. |
| DatasetsModel.GetDatasetsFilenames | modules/models/research_managment/Datasets.py:115-130 | Each dataset id maps to that dataset's file name. |
| DatasetsModel.GetAllByResearch | modules/models/research_managment/Datasets.py:132-151 | One item per dataset of the research, in table order. The list is empty exactly when the research has none. |
| ArticlesModel.GetId | modules/models/research_managment/Articles.py:99-102 | The article found has the requested id. None means no row has it. |
| ArticlesModel.IdExists | modules/models/research_managment/Articles.py:94-97 | True exactly when the lookup finds an article. |
| ArticlesModel.Add | modules/models/research_managment/Articles.py:27-38 | Appends an article row with the given values. Raises "Error adding Article" exactly for an unknown key. |
| ArticlesModel.Update | modules/models/research_managment/Articles.py:40-60 | Raises "Error updating Article" exactly for an unknown id. Otherwise only that article takes the new known attributes. |
| ArticlesModel.Deactivate | modules/models/research_managment/Articles.py:62-76 | Raises "Error deactivating Article" exactly for an unknown id. Otherwise only that article becomes inactive. |
| ArticlesModel.Delete | modules/models/research_managment/Articles.py:78-92 | Raises "Error deleting Article" exactly for an unknown id. Otherwise exactly one row is removed. |
| ArticlesModel.DeleteRemovesOnlyArticle | modules/models/research_managment/Articles.py:78-92 | With unique ids, the deleted article is gone and every other article is kept. |
| ArticlesModel.GenerateUniqueId | modules/models/research_managment/Articles.py:104-111 | Returns a drawn candidate id that no article holds. |
| AiLabeledModel.Add | modules/models/ai_models/AiLabeled.py:25-36 | Appends a label row with the given values. Raises "Error adding AiLabeled" exactly for an unknown key. |
| AiLabeledModel.GetId | modules/models/ai_models/AiLabeled.py:71-74 | Finds a label of the article, whatever its research. None means the article has no label. |
| AiLabeledModel.GetByArticleResearch | modules/models/ai_models/AiLabeled.py:76-79 | Finds the label of the article within the research. None means there is none. |
| AiLabeledModel.GetPredictionReasoning | modules/models/ai_models/AiLabeled.py:81-87 | The prediction and reasoning of that label, or None exactly when it is missing. |
| AiLabeledModel.OneLabelPerArticle | modules/models/ai_models/AiLabeled.py:10 | The article id is the whole primary key, so a committable table holds at most one label per article. A lookup by article and research then agrees with the lookup by article alone. |
| AiLabeledModel.Update | modules/models/ai_models/AiLabeled.py:38-55 | Raises "Error updating AiLabeled" exactly when the article has no label. Otherwise only that label changes. |
| AiLabeledModel.Delete | modules/models/ai_models/AiLabeled.py:57-69 | Raises "Error deleting AiLabeled" exactly when the article has no label. Otherwise exactly that label leaves the table. |
| AiLabeledModel.GetByResearch | modules/models/ai_models/AiLabeled.py:89-106 | One item per label of the research, in table order. The list is empty exactly when there is none. |
| TrainModel.MaxVersion | modules/models/ai_models/Train.py:78 | The value of the `MAX(version)` query over a research's models: the largest version present. None exactly when no model carries a version. |
| TrainModel.GenerateVersion | modules/models/ai_models/Train.py:74-84 | As written: the query names `db.func`, which `DatabaseManager` does not have, so every call raises "Error generating version for TrainedModel", whatever the research and the table. |
| TrainModel.NextVersion | modules/models/ai_models/Train.py:78-81 | Corrected to query `sqlalchemy.func.max`: the next version is above every version the research has. It is 1 when the research has none, and otherwise one more than an existing version. |
| TrainModel.AddAsCalled | modules/models/ai_models/Train.py:30-31 | `add` as the handler calls it. Without `@classmethod` it is a plain function, so `TrainedModel.add(dict_new=...)` binds nothing to `cls` and raises the `TypeError` for the missing argument, for every input. |
| TrainModel.AddVersioned | modules/models/ai_models/Train.py:33-43 | The body of `add` once a version outcome is known. A raised version gives "Error adding Research". Otherwise it raises exactly for an unknown key, and appends one row with that version and every other given value. |
| TrainModel.Add | modules/models/ai_models/Train.py:30-43 | `add` with `@classmethod` restored but the body as written: the call to `generate_version` raises, so `add` raises "Error adding Research" for every input. |
| TrainModel.AddIntended | modules/models/ai_models/Train.py:30-43 | `add` with both corrections. It raises exactly when the research id is missing or a key is unknown. Otherwise it appends a row whose version is the research's next version and which carries every other given value. |
| TrainModel.VersionedAddOnlyWhenCorrected | modules/models/ai_models/Train.py:34 | For a record of known columns that names its research, `add` with only `@classmethod` restored raises, while `add` with both corrections stores the row with the next version. |
| TrainModel.AddIncreasesVersion | modules/models/ai_models/Train.py:74-84 | With the corrected `add`, a newly added model's version exceeds every version its research had. |
| TrainModel.SuccessiveAddsIncrease | modules/models/ai_models/Train.py:31-40 | With the corrected `add` and a commit after the first add, the second model for the same research gets the higher version. |
| TrainModel.AddPending | modules/models/ai_models/Train.py:31-40 | Without a commit, `add` numbers the new model from the committed table only and appends it to the pending models. |
| TrainModel.UncommittedAddsShareVersion | modules/models/__init__.py:14 | With autoflush off and no commit in between, two adds for the same research get the same version. |
| TrainModel.Update | modules/models/ai_models/Train.py:45-63 | Raises exactly for an unknown id. Otherwise only that model takes the new known attributes. |
| TrainModel.GetByResearch | modules/models/ai_models/Train.py:86-99 | One item per model of the research, in table order. The list is empty exactly when there is none. |
| TrainModel.GetId | modules/models/ai_models/Train.py:101-104 | The model found has the requested id. None means no row has it. |
| TrainModel.LatestIndex | modules/models/ai_models/Train.py:106-109 | `ORDER BY version DESC` then `first()`: the earliest row holding the highest version. None exactly when no row matches. |
| TrainModel.GetLatestByResearch | modules/models/ai_models/Train.py:106-109 | A model of the research whose version no other model of the research exceeds. None exactly when the research has no model. |
| TrainModel.LatestPrecedesNextVersion | modules/models/ai_models/Train.py:74-109 | The latest model's version is one below the version the corrected `generate_version` gives the next model. |
| MlClassifierModel.Add | modules/models/ai_models/MlClassifier.py:22-33 | Appends a prediction row with the given values. Raises "Error adding MlClassifier" exactly for an unknown key. |
| MlClassifierModel.GetByArticleAndModel | modules/models/ai_models/MlClassifier.py:78-81 | Finds the prediction stored under the full key of article and model, or None when there is none. |
| MlClassifierModel.GetByArticle | modules/models/ai_models/MlClassifier.py:68-76 | Finds some prediction for the article, whatever the model. None means the article has none. |
| MlClassifierModel.Update | modules/models/ai_models/MlClassifier.py:35-52 | Raises exactly when the article has no prediction. Otherwise only the first prediction for the article changes. |
| MlClassifierModel.Delete | modules/models/ai_models/MlClassifier.py:54-66 | Raises exactly when the article has no prediction. Otherwise exactly the first prediction for the article is removed. |
| MlClassifierModel.ArticleOnlyLookupSeesFirstModel | modules/models/ai_models/MlClassifier.py:10-11 | The key is the pair of article and model, so two models' predictions for one article may coexist. The lookup and delete by article alone then reach only the first. |
| MlClassifierModel.GetPrediction | modules/models/ai_models/MlClassifier.py:83-93 | None exactly when the article has no prediction. Otherwise the fields of the prediction found. |
| MlClassifierModel.MaxOf | modules/models/ai_models/MlClassifier.py:135 | Python's `max` of two probabilities returns one of them, and no smaller one. |
| MlClassifierModel.Confidence | modules/models/ai_models/MlClassifier.py:135 | The confidence is NULL exactly when either probability is falsy. Otherwise it is one of the two probabilities. |
| MlClassifierModel.AbstractOf | modules/models/ai_models/MlClassifier.py:131 | The abstract of the prediction's article, or "" when the article is missing. |
| MlClassifierModel.GetAllByModel | modules/models/ai_models/MlClassifier.py:122-141 | One item per prediction of the model, in table order, each carrying that model's id. The list is empty exactly when there is none. |
| UserRoutes.Register | modules/routes/app_user.py:15-42 | An existing username gets 409 and nothing changes. Otherwise a user row holding the form's fields and the password's digest is appended and committed, or the store is rolled back with a 400. |
| UserRoutes.NewUser | modules/routes/app_user.py:27-35 | The registration record names only columns of the users table and gives every NOT NULL column. It holds the username and the password digest, and the account is active. |
| UserRoutes.Login | modules/routes/app_user.py:47-66 | An unknown user gets 401, an inactive one 403, and a wrong password's digest 401. Success requires an active user with the matching digest, and the only change is that user's `last_login`. |
| UserRoutes.ProfileUpdate | modules/routes/app_user.py:86 | The update holds exactly the profile fields that are given and not blank, with their values. |
| UserRoutes.ActiveUser | modules/routes/app_user.py:74-78 | The update endpoints' prologue passes exactly for an existing, active user. |
| UserRoutes.UpdateAndCommit | modules/routes/app_user.py:87-92 | A failed commit rolls back with a 400. A success stores the user's update. |
| UserRoutes.UpdateUser | modules/routes/app_user.py:69-92 | A missing user gets 404 and an inactive one 403. A success changes only the given, non-blank fields of that user. |
| UserRoutes.UpdatePassword | modules/routes/app_user.py:97-112 | A missing user gets 404 and an inactive one 403. A success replaces that user's digest with the new password's digest. |
| UserRoutes.GetUser | modules/routes/app_user.py:116-134 | Read-only. It succeeds exactly for an existing user, with that user's attributes; otherwise 404. |
| UserRoutes.SetActive | modules/routes/app_user.py:138-163 | 404 exactly for a missing user. Otherwise that user's `is_active` takes the requested value. |
| UserRoutes.DeleteUser | modules/routes/app_user.py:167-185 | Only an active admin may delete. A success means the target existed and the store is the users table without it. |
| UserRoutes.LastLoginKeepsConsistent | modules/routes/app_user.py:61-63 | Stamping `last_login` keeps a committable store committable. |
| UserRoutes.LoginSucceeds | modules/routes/app_user.py:47-66 | An existing, active user with the right password logs in on a consistent store. |
| UserRoutes.RegisteredUserFound | modules/routes/app_user.py:37-39 | The row that `register` appended is the one a later lookup finds. |
| UserRoutes.RegisterThenLogin | modules/routes/app_user.py:15-66 | A freshly registered user can log in with the password given at registration. |
| UserRoutes.LoginRejectsOtherPassword | modules/routes/app_user.py:55-58 | A password whose digest differs from the stored one is refused with 401, and nothing changes. |
| UserRoutes.InactivatedUserCannotLogin | modules/routes/app_user.py:138-148 | After inactivation, login is refused with 403 whatever the password. |
| UserRoutes.BlankUpdateChangesNothing | modules/routes/app_user.py:86-92 | An update with no usable field answers success and leaves a consistent store as it was. |
| UserRoutes.DeleteUserRemovesOnlyTarget | modules/routes/app_user.py:167-185 | A successful deletion removes the target user and keeps every other user. |
| ResearchRoutes.Create | modules/routes/app_research.py:16-58 | Nothing is ever stored. An unknown user gets 401, and an inactive user or one without the role gets 403. Every other request ends in 500, because the handler calls `Research.name_exists`, which the class does not define. |
| ResearchRoutes.StoredCriteriaRoundTrip | modules/routes/app_research.py:44 | Criteria stored by the handlers read back as the submitted list when no criterion runs into the separator. |
| ResearchRoutes.TextUpdate | modules/routes/app_research.py:89 | Only the given, non-blank text fields enter the update. |
| ResearchRoutes.ResearchUpdate | modules/routes/app_research.py:80-89 | The update holds the given text fields, the criteria in stored form exactly when a list is given, and `is_test` exactly when it is given. |
| ResearchRoutes.Prologue | modules/routes/app_research.py:71-78 | The shared checks of update and (in)activation pass exactly for an active user and an existing research. They answer 404, 403 and 404 in that order. |
| ResearchRoutes.UpdateAndCommit | modules/routes/app_research.py:89-95 | A failed commit rolls back with a 400. A success stores the research's update. |
| ResearchRoutes.UpdateResearch | modules/routes/app_research.py:62-95 | A user who is neither admin nor researcher nor the owner gets 403, and the prologue's failures pass through. A success applies exactly the built update to that research. |
| ResearchRoutes.GetResearch | modules/routes/app_research.py:98-113 | Read-only. An admin gets every research grouped by owner, and anyone else gets only their own. |
| ResearchRoutes.NonAdminSeesOwnResearches | modules/routes/app_research.py:105-111 | A non-admin's listing has at most one group, keyed by their username, and holds only researches they own. |
| ResearchRoutes.SetActive | modules/routes/app_research.py:116-153 | The prologue's failures pass through. A success sets that research's `is_active` and update time and nothing else. |
| ResearchRoutes.SetActiveTakesEffect | modules/routes/app_research.py:116-153 | After a successful (in)activation, the research is found with the requested status. |
| ResearchRoutes.UpdateKeepsUnmentioned | modules/models/research_managment/Research.py:54-58 | A column the update does not mention keeps its value in every row. |
| ResearchRoutes.UpdateKeepsTitle | modules/routes/app_research.py:80-89 | `PUT /update` never changes a research's title, because `name` is not a column. |
| LlmClassify.Get | modules/Utils/llm_classify.py:9-13 | `dict.get(key)` gives the stored value, or None for a missing key. |
| LlmClassify.Classify | modules/Utils/llm_classify.py:3-43 | A failed call or an unreadable reply yields the fallback tuple: "no_classified", the error text and zero tokens. A readable reply yields its prediction, its reasoning and its three token counts. |
| LlmClassify.CompleteIffClassified | modules/routes/app_labeler.py:73 | A failed classification is never marked complete. A readable reply is complete exactly when its prediction is not "no_classified". |
| LabelerRoutes.PromptCriteriaOfJoined | modules/routes/app_labeler.py:58 | Criteria stored by joining a list appear in the prompt as that list joined with a newline and a dash. |
| LabelerRoutes.ErrorReply | modules/routes/app_labeler.py:83-88 | The handler's `except` answers 429 exactly when the lower-cased error text contains "quota". Otherwise it answers 500 with the labelling error. |
| LabelerRoutes.AddLabel | modules/routes/app_labeler.py:64-77 | The new label is appended. It names the article, the research and the prompt, and it is complete exactly when its prediction is. |
| LabelerRoutes.NewLabelFields | modules/routes/app_labeler.py:64-76 | Every field the handler stores is a column of the label table, so adding the label never raises. |
| LabelerRoutes.LabelAttempt | modules/routes/app_labeler.py:45-82 | The `try` block: a missing article raises the 404 text. An article already labelled for the research commits the store unchanged. Otherwise the new label is the only change. |
| LabelerRoutes.Label | modules/routes/app_labeler.py:29-88 | An unknown user gets 500 (`None.is_active`), an inactive user 403, a missing research 404 and an inactive one 403. A success has a valid article and changes only the labels. An article already labelled changes nothing. |
| LabelerRoutes.MissingArticleNeverNotFound | modules/routes/app_labeler.py:45-88 | A missing article's 404 is raised inside the `try`, so the client receives 500, or 429 when the text mentions "quota", and never 404. |
| LabelerRoutes.LabelIdempotent | modules/routes/app_labeler.py:50-53 | Once an article is labelled for a research, repeating the request answers the same and adds nothing, whatever the model replies. |
| LabelerRoutes.CountComplete | modules/routes/app_labeler.py:158 | The number of complete items never exceeds the number of items. |
| LabelerRoutes.CountIncomplete | modules/routes/app_labeler.py:159 | The number of incomplete items never exceeds the number of items. |
| LabelerRoutes.CountPartition | modules/routes/app_labeler.py:157-159 | Complete and incomplete items add up to all items. |
| LabelerRoutes.TokenSum | modules/routes/app_labeler.py:160 | The sum exists exactly when every item's token count is a number or falsy. |
| LabelerRoutes.TokenCount | modules/routes/app_labeler.py:160 | `tokens_total or 0`: a falsy count (NULL, 0, `False`, an empty text) reads as 0 and an integer reads as itself. Only a truthy value that is neither an integer nor a boolean has no count. |
| LabelerRoutes.TokenSumSkipsNull | modules/routes/app_labeler.py:160 | An item with no recorded token count adds nothing to the sum. |
| LabelerRoutes.Summary | modules/routes/app_labeler.py:153-168 | Read-only. The research's items, their count, the complete and incomplete counts (which add up to the total) and the token sum. A non-numeric token count gives 500. |
| LabelerRoutes.Select | modules/routes/app_labeler.py:180-184 | "all" keeps every item and "fails" keeps exactly the incomplete ones. Any other method is refused. |
| LabelerRoutes.Incomplete | modules/routes/app_labeler.py:182 | The incomplete items, in order: every incomplete item and nothing else. |
| LabelerRoutes.IdsOf | modules/routes/app_labeler.py:213 | The article id of each item, in order. |
| LabelerRoutes.UpdateFor | modules/routes/app_labeler.py:192-209 | The `dict_update` of a reprocessed label never names `id_article`, so an update cannot move a label to another article. |
| LabelerRoutes.UpdateForWrites | modules/routes/app_labeler.py:192-209 | The update writes exactly the prompt, the prediction, the reasoning, the three token counts, `flag_complete` and `update_at`. The values come from classifying the prompt built from the research and the article. `flag_complete` is true exactly when the prediction is not `no_classified`. |
| LabelerRoutes.UpdateKeepsArticleIds | modules/models/ai_models/AiLabeled.py:39-51 | `AiLabeled.update` with such an update changes only the first label of the article, applying the known keys. Every label keeps its article. |
| LabelerRoutes.ReprocessOne | modules/routes/app_labeler.py:188-214 | One item raises exactly when its article exists and the research's criteria are not a string. A missing article is skipped. An update changes only that article's label and moves no label. |
| LabelerRoutes.ReprocessOneUpdates | modules/routes/app_labeler.py:188-214 | An item whose label was updated had an existing article and string criteria. Its label got that article's fresh `dict_update`. |
| LabelerRoutes.ReprocessItems | modules/routes/app_labeler.py:186-215 | The reprocessed ids are a subsequence of the selected items' ids, and each names an existing article. The label table keeps its size, and the loop never raises when the research has stored criteria. |
| LabelerRoutes.ReprocessLeavesOthers | modules/routes/app_labeler.py:186-215 | After the loop, every label whose article was not reprocessed is unchanged, and no label has changed article. |
| LabelerRoutes.ReprocessWritesFreshLabels | modules/routes/app_labeler.py:186-215 | After the loop, each reprocessed article's first label is its old row with that article's fresh `dict_update` applied. |
| LabelerRoutes.Reprocess | modules/routes/app_labeler.py:170-221 | A missing research gets 404, an inactive one 403, and an unknown method 400. A success reprocesses a subsequence of the selected items, reports how many, and changes only the labels. |
| LabelerRoutes.ReprocessWrites | modules/routes/app_labeler.py:170-221 | After a successful `/reprocess`, each reported id's label holds the fresh classification of its article, and every other label is as it was. |
| MlRoutes.Train | modules/routes/app_ml.py:53-180 | As written, training always fails and stores nothing. The upload checks' failures pass through. After they pass, the answer is always 500, because the call to `TrainedModel.add` raises inside the outer `try`. |
| MlRoutes.TrainRecordFields | modules/routes/app_ml.py:148-160 | Every key of the training record is a column of the model table, and the record names its research. |
| MlRoutes.AddModel | modules/routes/app_ml.py:162 | With both corrections of `add`, the new model is appended for its research with the next version, which is above every version the research had. |
| MlRoutes.StoreModel | modules/routes/app_ml.py:162-171 | With both corrections of `add`, a successful store appends the research's next model version and commits. A failed commit rolls back with 500. |
| MlRoutes.TrainIntended | modules/routes/app_ml.py:53-180 | The handler with both corrections of `add`: the upload checks' failures pass through, a failed fit gives 500, and a success stores the fit as the research's next model version. |
| MlRoutes.TrainAsWrittenNeverStores | modules/routes/app_ml.py:162-180 | For a request that passes every check, with a fit that commits, the written handler answers 500. Restoring `@classmethod` alone still makes `add` raise; only with both corrections does the handler succeed. |
| MlRoutes.GetTrainedModels | modules/routes/app_ml.py:187-193 | Always succeeds. Each listed model belongs to the research, and the list is empty exactly when the research has none. |
| MlRoutes.GetTrainedModel | modules/routes/app_ml.py:200-210 | Succeeds exactly for an existing model id, with that model. Otherwise 404. |
| MlRoutes.GetLatestTrainedModel | modules/routes/app_ml.py:217-225 | As written: it succeeds exactly when the research has a model, with the latest one. Otherwise the broad `except` turns the 404 into 500. |
| MlRoutes.GetLatestTrainedModelIntended | modules/routes/app_ml.py:217-225 | Corrected: the same success, and a 404 when the research has no model. |
| MlRoutes.LatestMissingIsServerError | modules/routes/app_ml.py:220-225 | A research without models gets 500 from the written handler and 404 from the corrected one. |
| MlRoutes.LatestHasHighestVersion | modules/routes/app_ml.py:217-222 | For a research with a model, the model returned has a version no other model of that research exceeds. |
| MlRoutes.PredictionRecordFields | modules/routes/app_ml.py:289-298 | Every key of the prediction record is a column, and the record holds the predicted class and both probabilities. |
| MlRoutes.AddPrediction | modules/routes/app_ml.py:300 | The new prediction is appended under its article and model, and reads back as the answer the handler gives. |
| MlRoutes.ManagerCheck | modules/routes/app_ml.py:237-243 | Passes exactly for an existing, active admin or researcher. Otherwise 401, 403 or 403, in that order. |
| MlRoutes.ExecuteInference | modules/routes/app_ml.py:232-312 | The user checks come first, then 404 for an unknown model. A stored prediction is answered as is and nothing changes. A missing article gives 500. A new prediction is appended under the article and model and committed. |
| MlRoutes.Infer | modules/routes/app_ml.py:278-312 | A success appends exactly one prediction for the article and model and answers with it. A failed prediction or commit gives 500 and changes nothing. |
| MlRoutes.ExecuteInferenceIdempotent | modules/routes/app_ml.py:250-259 | Repeating a successful request, with any model at any later time, gives the same answer and stores nothing more. |
| MlRoutes.AppendedIsFound | modules/routes/app_ml.py:250-251 | A prediction appended for a pair that had none is the one the lookup by article and model finds. |
| MlRoutes.ParseIds | modules/routes/app_ml.py:325 | The ids the batch processes are never empty. |
| MlRoutes.NonBlank | modules/routes/app_ml.py:342-345 | The stripped, non-empty entries: no more entries than given, and none empty. |
| MlRoutes.NonBlankKeeps | modules/routes/app_ml.py:342-345 | Entries that are already stripped and non-empty pass unchanged. |
| MlRoutes.StripAll | modules/routes/app_ml.py:342-345 | One stripped entry per given entry, in the same order. |
| MlRoutes.DropEmpty | modules/routes/app_ml.py:342-345 | The kept entries are never empty and never more than given. |
| MlRoutes.DropEmptyKeeps | modules/routes/app_ml.py:342-345 | A list with no empty entry passes through whole. |
| MlRoutes.ParseJoinedIds | web/static/js/api-client.js:455-468 | Ids the client joins with commas come back exactly, provided they are non-empty, contain no comma and have no surrounding blanks. |
| MlRoutes.ItemIds | modules/routes/app_ml.py:380-384 | The article id of each answer item, in order. |
| MlRoutes.Step | modules/routes/app_ml.py:347-384 | One loop pass for an id without a prediction adds one exactly when the article exists, has an abstract and the model predicts. The added row is under that article and model. |
| MlRoutes.Pass | modules/routes/app_ml.py:347-388 | One pass skips and counts an id exactly when the committed table holds its prediction. Otherwise it adds one row under the article and model exactly when the article can be predicted, even if an earlier pass of the same request added one. |
| MlRoutes.BatchLoop | modules/routes/app_ml.py:342-388 | The loop appends one prediction per answer item and keeps every earlier row. Predicted and skipped ids together never exceed the ids given. Every look-up reads the table as the request found it, because the session does not autoflush (models/__init__.py line 14). |
| MlRoutes.BatchLoopInOrder | modules/routes/app_ml.py:342-388 | The answer lists the ids it predicted for in the order they were given. |
| MlRoutes.SkipKeepsSubsequence | modules/routes/app_ml.py:344-357 | Dropping an id keeps the answer a subsequence of the ids. |
| MlRoutes.KeptInExtension | modules/routes/app_ml.py:349-352 | A prediction present before the loop step is still present after it. |
| MlRoutes.PassRowKept | modules/routes/app_ml.py:378 | A row one pass added is still in the final table, at the place the pass put it. |
| MlRoutes.NewRowFor | modules/routes/app_ml.py:349-378 | A predictable id with no committed prediction gets a new row after the rows the session held when the loop reached it. |
| MlRoutes.BatchLoopCovers | modules/routes/app_ml.py:342-388 | After the loop, every id the model can predict for has a prediction under the model. |
| MlRoutes.BatchCovers | modules/routes/app_ml.py:342-388 | The same coverage, for every id at once. |
| MlRoutes.RepeatedIdAddsTwice | modules/routes/app_ml.py:342-378 | An id listed twice that can be predicted and has no committed prediction gets two rows for the same article and model. |
| MlRoutes.BatchRun | modules/routes/app_ml.py:338-397 | A success commits only new predictions. The processed count equals the answer items, and processed plus skipped never exceed the ids. Every predictable id is covered. A failed commit gives 500 and changes nothing. |
| MlRoutes.RepeatedIdFailsCommit | modules/routes/app_ml.py:342-390 | A predictable id listed twice with no committed prediction makes the commit fail: the batch answers 500 and stores nothing. |
| MlRoutes.SharedPairNotAdmissible | modules/models/ai_models/MlClassifier.py:10-11 | Two rows for the same article and model break the primary key, so the table cannot be committed. |
| MlRoutes.BatchInference | modules/routes/app_ml.py:315-402 | A missing or inactive user gets 403. An unknown model gets 500 carrying the 404 text. A success is the batch run over the parsed ids, so a predictable id listed twice ends in 500 with nothing stored. |
| MlRoutes.ModelIds | modules/routes/app_ml.py:456 | The id of each model, in order. |
| MlRoutes.AllPredictions | modules/routes/app_ml.py:459-463 | Every collected prediction belongs to one of the listed models. |
| MlRoutes.AllPredictionsComplete | modules/routes/app_ml.py:459-463 | Nothing is lost: every prediction of every listed model is collected. |
| MlRoutes.GetMlPredictions | modules/routes/app_ml.py:449-473 | Always succeeds, and the total equals the number of predictions. With no models the answer is empty with its message. Each prediction belongs to one of the research's models. |
| MlRoutes.DownloadPredictions | modules/routes/app_ml.py:406-445 | With no models, the 404 raised inside the `try` is answered as 400. A success is never empty. |
| MlRoutes.DownloadAgreesWithListing | modules/routes/app_ml.py:406-473 | The download succeeds exactly when the listing is non-empty, and then holds exactly the listed predictions. |
| RetrieverRoutes.CollectionName | modules/routes/app_retriever.py:67 | The collection name is "research_" followed by the research id. |
| RetrieverRoutes.CollectionNameInjective | modules/routes/app_retriever.py:67 | Two researches share a collection exactly when they are the same research. |
| RetrieverRoutes.Gatekeep | modules/routes/app_retriever.py:34-42 | The shared checks admit exactly an active user and an existing, active research. Otherwise they refuse with 403, 404 or 403, in that order. A missing user is told apart, because `None.is_active` raises. |
| RetrieverRoutes.Documents | modules/routes/app_retriever.py:81-86 | One document per article, in order. Its text is the title, a space, a line break and the abstract, and its metadata is the article id. |
| RetrieverRoutes.Ids | modules/routes/app_retriever.py:93 | The metadata id of each document, in order. |
| RetrieverRoutes.Batches | modules/routes/app_retriever.py:90-92 | Batches of 100: the number of batches is the size divided by 100 and rounded up, and each batch is non-empty and holds at most 100. |
| RetrieverRoutes.BatchSlices | modules/routes/app_retriever.py:91-92 | Batch i is the slice from 100·i to 100·i + 100, cut at the end. |
| RetrieverRoutes.BatchesFlatten | modules/routes/app_retriever.py:90-94 | Sending the batches one after another sends every item once, in order. |
| RetrieverRoutes.AddCalls | modules/routes/app_retriever.py:91-94 | One `add_documents` call per batch, each passing that batch's ids. |
| RetrieverRoutes.IdsAppend | modules/routes/app_retriever.py:93 | The ids of two runs of documents are the ids of the first run followed by those of the second. |
| RetrieverRoutes.SentIdsOfSentDocs | modules/routes/app_retriever.py:93-94 | Over all the calls, the ids sent are the ids of the documents sent. |
| RetrieverRoutes.SentDocsFlatten | modules/routes/app_retriever.py:91-94 | The documents sent are the batches concatenated. |
| RetrieverRoutes.AllDocumentsSentOnce | modules/routes/app_retriever.py:89-94 | Every document is sent exactly once, in order, under its own id. |
| RetrieverRoutes.CreateRetriever | modules/routes/app_retriever.py:31-104 | Never succeeds and never writes. A missing user gets 500 and a refused check keeps its status. A research without datasets gets 400 wrapping the 404. One with datasets gets 400 wrapping the `AttributeError` of `Articles.get_all_by_dataset`, which the class does not define. |
| RetrieverRoutes.Prelude | modules/routes/app_retriever.py:111-132 | Inside the `try`, every refusal is answered 400 with the handler's prefix. It passes exactly when the checks admit and the vector store opens, and it returns the research. |
| RetrieverRoutes.QueryRetriever | modules/routes/app_retriever.py:108-152 | Every failure is 400 with the query prefix. On success the query is the research title, and the results are the ids of the documents found, in order. |
| RetrieverRoutes.DeleteRetriever | modules/routes/app_retriever.py:156-191 | Succeeds exactly when the checks pass, the store opens and the collection is dropped, naming the research's collection. Any failure is 400 with the delete prefix. |
| RetrieverRoutes.DeleteArticles | modules/routes/app_retriever.py:195-231 | Succeeds exactly when the checks pass, the store opens and the ids are removed, echoing the ids. Any failure is 400 with the prefix. |
| RetrieverRoutes.CreateAndQueryRefuseAlike | modules/routes/app_retriever.py:31-152 | A refusal is answered by `create` with its own status, and by `query` as 400 with that status in the message. A missing user is 500 for one and a wrapped `AttributeError` for the other. |
| Loader.TagIndex | modules/core/tools/loader.py:60-64 | The tag found is a prefix of the line, and no earlier tag in mapping order is. When no tag is found, none of the tags tried is a prefix. |
| Loader.OpenField | modules/core/tools/loader.py:59-64 | With no field open, a line opens a field exactly when it holds `"- "`, starts with some tag and has a non-empty value after the dash. The column opened is the first matching tag's, and its content is that stripped value. |
| Loader.ValueAfterDash | modules/core/tools/loader.py:62-63 | The value of a line holding `"- "` is at most the line's length less two. |
| Loader.ValueAfterFirstDash | modules/core/tools/loader.py:62-63 | The value is the text after the earliest `"- "` of the line, stripped: neither its first nor its last character is whitespace. |
| Loader.Scan | modules/core/tools/loader.py:54-72 | Scanning keeps every column, only appends values to what was already collected, and every appended value is non-empty. |
| Loader.LastLineIdleStoresNothing | modules/core/tools/loader.py:54-72 | A last line met with no field open stores nothing, even when it carries a tag. |
| Loader.LastLineClosesField | modules/core/tools/loader.py:66-69 | A field still open at the last line is stored as it stands, and the last line's own text is not added. |
| Loader.ContinuationRun | modules/core/tools/loader.py:70-71 | A run of indented lines, none of them the last, extends the open value: scanning them leaves the field open with the value continued by each stripped line, which stays non-empty. |
| Loader.ContinuedJoins | modules/core/tools/loader.py:70-71 | The continued value is the opening value and the stripped continuation lines joined with single spaces. |
| Loader.ContinuedNonEmpty | modules/core/tools/loader.py:70-71 | A field opened with text stays non-empty whatever continuation lines are appended to it. |
| Loader.ScanRun | modules/core/tools/loader.py:66-71 | An open field followed by indented lines and then a non-indented or last line is stored whole, once, as the joined value, and scanning resumes at that closing line with no field open. |
| Loader.Normalize | modules/core/tools/loader.py:75-84 | A column's cell is missing exactly when no value was collected, and a single value is kept unchanged. |
| Loader.NormalizeRoundTrip | modules/core/tools/loader.py:79-84 | When no value contains the column's separator, splitting the cell on that separator gives back the collected values. |
| Loader.EmptyFields | modules/core/tools/loader.py:48 | Every column of the mapping starts with no values. |
| Loader.ParseBatch | modules/core/tools/loader.py:16-86 | A parsed record has every mapped column, and its `pmid` begins with the stripped first line of the batch. |
| Loader.JoinStartsWithFirst | modules/core/tools/loader.py:84 | A joined cell begins with the first value collected. |
| Loader.ParseText | modules/core/tools/loader.py:42-93 | There is one record per `PMID- ` marker, and record n takes its `pmid` from the first line after marker n. |
| Loader.NoMarkerNoRecords | modules/core/tools/loader.py:42 | Text with no `PMID- ` marker yields no record. |
| Loader.PreambleDiscarded | modules/core/tools/loader.py:42 | Any text before the first marker has no effect on the records. |
| Loader.NbibFrame | modules/core/tools/loader.py:36-93 | An unreadable file is the empty frame. Otherwise there is one row per record, and a non-empty frame has all the mapped columns. |
| Loader.ExistingColumns | modules/core/tools/loader.py:126-131 | The kept columns are exactly the target columns the frame has; `label` is a target only for test researches. |
| Loader.FilterSeq | modules/core/tools/loader.py:134 | The filter keeps exactly the elements that satisfy the test, and never more than the input. |
| Loader.FilterSeqAppend | modules/core/tools/loader.py:134 | Filtering two runs of rows one after the other gives the two filtered runs one after the other. |
| Loader.FilterSeqAt | modules/core/tools/loader.py:134 | A kept element sits in the filtered list at the index given by the number of kept elements before it. |
| Loader.CompleteRowsKeepOrder | modules/core/tools/loader.py:134 | Of two complete rows, the earlier one has fewer complete rows before it, so `dropna` keeps their order. |
| Loader.Project | modules/core/tools/loader.py:134 | A projected row has exactly the selected columns the row had, with the same values. |
| Loader.ProjectAll | modules/core/tools/loader.py:134 | `df[existing_columns]`: one projected row per row, in order. |
| Loader.FilterProjectCommute | modules/core/tools/loader.py:134 | When the kept columns include `title` and `abstract`, dropping incomplete rows after the projection equals projecting the complete rows. |
| Loader.DropIncomplete | modules/core/tools/loader.py:134 | The rows kept are the complete rows, projected, in their order. None has a missing title or abstract. |
| Loader.SelectColumns | modules/core/tools/loader.py:125-136 | Selection raises exactly when some target column is present but `title` or `abstract` is missing. The message is pandas' list of the missing labels: `['title', 'abstract']`, `['title']` or `['abstract']`. With no target column the result is the empty frame. Otherwise the columns are the present targets in target order, and the rows are exactly the rows with a title and an abstract, projected, in order. |
| Loader.SelectKeepsCompleteRows | modules/core/tools/loader.py:131-134 | Every input row with a title and an abstract appears in the selection, projected, at the position given by the complete rows before it, and the selection has exactly as many rows as there are complete rows. |
| Loader.LoadData | modules/core/tools/loader.py:96-140 | An unknown suffix raises the unsupported-format error with the file name. A result that is not an error is either the empty frame or has columns. |
| Loader.LoadDataDispatch | modules/core/tools/loader.py:112-122 | A `.bib` file loads as the empty frame. A known suffix raises only when `title` or `abstract` is missing from what was read. |
| Loader.SelectOrEmpty | modules/core/tools/loader.py:125-138 | An empty frame passes through as the empty frame; any other frame goes through column selection. |
| Loader.ParserColumnsMembership | modules/core/tools/loader.py:16-34 | The parser's columns include the six bibliographic ones and never `label`. |
| Loader.BibliographicSelection | modules/core/tools/loader.py:126-131 | A frame with the six bibliographic columns and no `label` keeps exactly those six, in target order, for any research. |
| Loader.NbibSelection | modules/core/tools/loader.py:112-134 | A MEDLINE file with at least one record never raises during selection, and keeps the six bibliographic columns. |
| LoaderRoutes.Loaded | modules/routes/app_loader.py:114 | The success message begins with "Successfully loaded " and ends with the research id. |
| LoaderRoutes.Cell | modules/routes/app_loader.py:100-110 | A missing column gives the default. A NaN cell reads as `None`, and any other cell reads as its text. |
| LoaderRoutes.YearOf | modules/routes/app_loader.py:103 | The year is either `None` or an integer. It is set exactly when the cell is present, not NaN, and all digits. |
| LoaderRoutes.YearOfRendered | modules/routes/app_loader.py:103 | A year cell holding the decimal text of a number reads back as that number. |
| LoaderRoutes.Translate | modules/routes/app_loader.py:71-78 | A failed translation gives no language, no confidence and the original text. A successful one gives the translator's three values. |
| LoaderRoutes.Translations | modules/routes/app_loader.py:69-80 | There is one translation per row, in row order, each of that row's abstract. |
| LoaderRoutes.DatasetRecordFields | modules/routes/app_loader.py:83-91 | The dataset record uses only dataset-table columns. It holds the new id, the file name, the row count as decimal text (the column is a string) and the owning research. |
| LoaderRoutes.AddDataset | modules/routes/app_loader.py:92 | The new dataset is appended after the existing ones, which stay as they were. It records the id, the file name, the row count as decimal text and the research. |
| LoaderRoutes.ArticleRecordFields | modules/routes/app_loader.py:96-110 | The article record uses only article-table columns, with `label` exactly for a test research. It holds the title, the translated abstract, the original abstract and the parsed year, and it is active and owned by the dataset. |
| LoaderRoutes.AddArticle | modules/routes/app_loader.py:97-111 | One article is appended; it has the given id and agrees with its frame row. |
| LoaderRoutes.AllMatchAt | modules/routes/app_loader.py:96-111 | The article stored for row k agrees with row k. |
| LoaderRoutes.AddArticles | modules/routes/app_loader.py:96-111 | There is one article per row, appended in row order after the existing ones, which stay as they were. |
| LoaderRoutes.ArticleNotNull | modules/models/research_managment/Articles.py:12-17 | A row with id, title, abstract, original abstract and year set fills every NOT NULL column and the key. |
| LoaderRoutes.AddArticleAdmissible | modules/routes/app_loader.py:96-111 | An article with a fresh id, a title and an abstract keeps the article table committable exactly when its year parses. |
| LoaderRoutes.TranslationsSet | modules/routes/app_loader.py:71-78 | When every row has an abstract, every translated abstract is set, whether or not the translation failed. |
| LoaderRoutes.AddArticlesAdmissible | modules/routes/app_loader.py:96-111 | With ids that are always fresh, rows that all have a title, an abstract and a year leave the article table committable. |
| LoaderRoutes.AllYearsSplit | modules/routes/app_loader.py:103 | Every row's year parses exactly when the first row's does and the rest's do. |
| LoaderRoutes.FirstYearMissing | modules/routes/app_loader.py:103-111 | A row without a parsable year leaves a NULL in a NOT NULL column, whatever follows. |
| LoaderRoutes.Pending | modules/routes/app_loader.py:83-111 | Before the commit only the dataset and article tables change. They gain one dataset recording the row count and one matching article per row. |
| LoaderRoutes.LoadRows | modules/routes/app_loader.py:69-118 | A failure leaves the store unchanged and is 400 with the load prefix and the integrity error. Success happens exactly when the pending store is consistent; it keeps that store and answers with the loaded message. |
| LoaderRoutes.LoadRowsSucceedsIff | modules/routes/app_loader.py:96-112 | With a consistent store and fresh ids, rows that all have a title and an abstract are stored exactly when every year parses. |
| LoaderRoutes.ConsistentAfterUpload | modules/routes/app_loader.py:112 | When only the dataset and article tables change, the commit succeeds exactly when those two stay committable. |
| LoaderRoutes.AddDatasetAdmissible | modules/routes/app_loader.py:83-92 | A dataset with a fresh id keeps the dataset table committable. |
| LoaderRoutes.LoadedRowsComplete | modules/core/tools/loader.py:125-140 | Every row of a non-empty frame from the loader has a title and an abstract. |
| LoaderRoutes.LoadAs | modules/routes/app_loader.py:33-118 | A failure leaves the store unchanged, and a refused upload check keeps its status and detail. A loader error is 400 with the load prefix and the error, and an empty frame is 400 with the wrapped empty-file message. Any other frame goes on to storing the rows. |
| LoaderRoutes.LoadAsSucceedsIff | modules/routes/app_loader.py:33-118 | With a consistent store and fresh ids, an upload is stored exactly when the checks pass, the file reads into a non-empty frame and every row's year is all digits. |
| LoaderRoutes.NbibRefused | modules/routes/app_loader.py:20-47 | An active admin or researcher uploading a `.nbib` file is refused with 400 for its extension, although the loader can read that format. |
| ApiClient.DefaultBaseUrl | web/static/js/api-client.js:10-18 | On `localhost` or `127.0.0.1` the URL is the page's protocol and host followed by the API port 5010. Anywhere else it is the page's origin. |
| ApiClient.DefaultBaseUrlIgnoresPort | web/static/js/api-client.js:10-18 | The page's own port never changes the chosen base URL. |
| ApiClient.NewClient | web/static/js/api-client.js:5-8 | A non-empty base URL is kept, and an empty or missing one falls back to the default. The client starts with the stored user. |
| ApiClient.QueryPairs | web/static/js/api-client.js:53-56 | There is one `name=value` pair per parameter, in parameter order. |
| ApiClient.QueryString | web/static/js/api-client.js:54-56 | The suffix is empty exactly when there are no parameters. Otherwise it is `?` followed by the pairs joined with `&`. |
| ApiClient.GetUrl | web/static/js/api-client.js:53-60 | The requested URL begins with the base URL and the endpoint, and is exactly that when there are no parameters. |
| ApiClient.NoCharSeparable | web/static/js/api-client.js:55 | A text without a character can be split back out on that one-character separator. |
| ApiClient.PairSplits | web/static/js/api-client.js:55 | A serialised pair splits on `=` into exactly its encoded name and value. |
| ApiClient.QueryRoundTrip | web/static/js/api-client.js:53-56 | Decoding the query string gives back every parameter, in order, as its name and the string form of its value. |
| ApiClient.Property | web/static/js/api-client.js:40 | Reading a property that the body lacks, or reading from a body that is not an object, gives `undefined`. |
| ApiClient.ErrorMessage | web/static/js/api-client.js:38-41 | The error is the body's `detail` when that is truthy. Otherwise, including when the body is not JSON, it is `HTTP <status>: <statusText>`. |
| ApiClient.MakeRequest | web/static/js/api-client.js:23-48 | A network failure is rethrown unchanged, and a non-ok status throws the error message. An ok status yields the parsed body, or its parse error. |
| ApiClient.ServerDetailSurfaces | web/static/js/api-client.js:38-41 | A 4xx or 5xx answer with a non-empty `detail` shows that detail. One with an empty `detail` shows the status line. |
| ApiClient.FromSentEntryTail | web/static/js/api-client.js:157-161 | A field built from the tail of the object also comes from an entry of the whole object. |
| ApiClient.SentFields | web/static/js/api-client.js:157-161 | Every field sent comes from an entry whose value is not `null`, `undefined` or `''`. Every such entry is sent. |
| ApiClient.Sent | web/static/js/api-client.js:158 | An entry is sent exactly when its value is truthy, `false` or `0`. |
| ApiClient.UpdateUserForm | web/static/js/api-client.js:152-164 | The form starts with the user name and then carries exactly the entries with a value, so `0` and `false` are sent. |
| ApiClient.BatchInferenceForm | web/static/js/api-client.js:455-468 | The form carries the user name, the model id and `article_ids`, in that order. |
| ApiClient.BatchIdsRoundTrip | web/static/js/api-client.js:459 | The server's split of `article_ids` recovers the selected ids. This holds when no id is empty, holds a comma or has surrounding blanks. |
| ApiClient.CellText | web/static/js/api-client.js:310 | A falsy value, `0` and `false` included, becomes the empty cell. Any other value becomes its string form. |
| ApiClient.Escape | web/static/js/api-client.js:312 | Escaping never shortens the text. It adds or removes no character other than quotes, and it keeps a quote exactly when the text had one. |
| ApiClient.EscapeKeepsPlain | web/static/js/api-client.js:312 | A text without quotes is its own escape. |
| ApiClient.UndoubleEscape | web/static/js/api-client.js:312 | Undoing the doubled quotes gives back the original text. |
| ApiClient.CsvCell | web/static/js/api-client.js:309-316 | A cell is quoted exactly when its text holds a comma, a newline or a quote, with the inner quotes doubled. A falsy value gives the empty cell. |
| ApiClient.CellRoundTrip | web/static/js/api-client.js:309-316 | A CSV reader recovers the text of every value from its cell. |
| ApiClient.CsvCells | web/static/js/api-client.js:309-316 | A row has one cell per header, in header order. |
| ApiClient.CsvLines | web/static/js/api-client.js:299-318 | The header line lists the first record's keys. Then there is one line per record, each read through those keys. |
| ApiClient.ConvertToCsv | web/static/js/api-client.js:295-321 | No data gives `''`. Otherwise the lines are joined with newlines, and there is no newline at the end. |
| ApiClient.JoinAvoids | web/static/js/api-client.js:317-320 | Joining pieces and a separator that all avoid a character gives a text that avoids it. |
| ApiClient.GetAvoids | web/static/js/api-client.js:310 | A missing property reads as an empty cell, so it adds no character. |
| ApiClient.CellAvoids | web/static/js/api-client.js:312-315 | Quoting and escaping add only quote characters. |
| ApiClient.LinesAvoid | web/static/js/api-client.js:305-317 | For a character c that is neither `,` nor `"`: when no key or value holds c, no line holds c. |
| ApiClient.CsvLinesRoundTrip | web/static/js/api-client.js:295-321 | When nothing holds a newline, splitting the CSV on newlines gives the header line and exactly one line per record. |
| ApiClient.PlainCell | web/static/js/api-client.js:313-315 | A value without a comma, newline or quote is written unquoted, and a comma after it cannot be mistaken for part of it. |
| ApiClient.RowSplits | web/static/js/api-client.js:309-317 | A record whose values are all plain splits on `,` into its values' texts, in header order. |
| ApiClient.CsvRowRoundTrip | web/static/js/api-client.js:295-321 | With plain values, line i+1 of the CSV splits into record i's value texts, read through the first record's keys. |
| ApiClient.CsvHeaderRoundTrip | web/static/js/api-client.js:299-305 | The header line splits back into the first record's keys. |
| ApiClient.GetCurrentUser | web/static/js/api-client.js:531-534 | The user is present exactly when the storage holds the key, and it is the stored text. |
| ApiClient.SetCurrentUser | web/static/js/api-client.js:536-539 | Afterwards both the storage and the client name the user. No other storage key changes. |
| ApiClient.RemoveCurrentUser | web/static/js/api-client.js:541-544 | Afterwards neither the storage nor the client names a user. No other storage key changes. |
| ApiClient.RequireAuthentication | web/static/js/api-client.js:546-556 | Proceeds exactly when some user is stored, even an empty name, and returns that user. Otherwise it redirects to `/login` with `Authentication required`. |
| ApiClient.IsAuthenticated | web/static/js/api-client.js:546-548 | Authenticated exactly when the storage holds the `currentUser` key, whatever text it holds. |
| ApiClient.Login | web/static/js/api-client.js:111-121 | A failed request is rethrown and stores nothing. A successful one stores the answer's `username` as a string. |
| ApiClient.Logout | web/static/js/api-client.js:132-135 | Afterwards no user is stored, and the page goes to `/login`. |
| ApiClient.LoginThenLogout | web/static/js/api-client.js:111-135 | After a login the session proceeds as the user the server named. After a logout it is sent to `/login`. |
| Translator.TableOfSpec | web/static/js/translator.js:14-208 | A table built from an object literal has exactly the literal's keys, each with a text the literal gives it. |
| Translator.KeyList | web/static/js/translator.js:14-208 | The key list names the literal's keys, one per entry, in order. |
| Translator.SameKeyAt | web/static/js/translator.js:14-208 | Each position of the four built-in tables names the same key. |
| Translator.EntriesAt | web/static/js/translator.js:14-208 | At every position the four built-in tables name the same key, and none of the four texts there is empty. |
| Translator.DefaultKeyListsAgree | web/static/js/translator.js:14-208 | The English, Spanish, French and Portuguese tables list the same keys in the same order. |
| Translator.DefaultTextsNonEmpty | web/static/js/translator.js:14-208 | No built-in text is empty, so a built-in entry is never skipped as falsy. |
| Translator.Loaded | web/static/js/translator.js:270-274 | After loading, the manager holds the four built-in tables, lists `en`, `es`, `fr` and `pt` in that order, and has English current. |
| Translator.FirstPiece | web/static/js/translator.js:220 | The first `-`-separated piece is a prefix without `-`, followed by `-` when the tag has one. It is the whole tag when there is no `-`. |
| Translator.DetectBrowserLanguage | web/static/js/translator.js:218-224 | The detected language is English, or a language with a table that begins the browser tag and holds no `-`. |
| Translator.DetectTagged | web/static/js/translator.js:218-224 | A tag `code-region` or a bare `code` is detected as `code` when a table exists for it. Otherwise it is detected as English. |
| Translator.Construct | web/static/js/translator.js:6-12 | A new manager holds the built-in tables. A stored non-empty preference is current; otherwise the detected browser language is. |
| Translator.SetLanguage | web/static/js/translator.js:276-280 | The language becomes current and is stored. The tables, the language list and every other storage key are unchanged. |
| Translator.ReloadKeepsLanguage | web/static/js/translator.js:211-280 | A non-empty language set by the user is current in the next manager, whatever the browser's language. |
| Translator.GetAvailableLanguages | web/static/js/translator.js:344-346 | A language is listed exactly when it has a table. |
| Translator.AvailableAfterConstruct | web/static/js/translator.js:247-252 | A new manager lists exactly `en`, `es`, `fr` and `pt`, in that order. |
| Translator.LookupLanguage | web/static/js/translator.js:318 | A given non-empty language is used; otherwise the current language is. |
| Translator.GetTranslation | web/static/js/translator.js:317-327 | The lookup language's non-empty text wins, then the English text, then the key itself. A non-empty key never gives an empty text. |
| Translator.T | web/static/js/translator.js:324-327 | `t` returns what `getTranslation` returns for the same key and language, so a non-empty key never gives an empty text. |
| Translator.GetCurrentLanguage | web/static/js/translator.js:348-350 | The current language is the one a lookup with no language, or an empty one, uses. |
| Translator.DefaultsNeverFallBack | web/static/js/translator.js:317-322 | With the built-in tables, a built-in key in a built-in language gives that language's own text. |
| Translator.TableHasKey | web/static/js/translator.js:14-208 | A key the literal lists is in its table, with a non-empty text when no text of the literal is empty. |
| Translator.UnknownLanguageFallsBack | web/static/js/translator.js:317-322 | A language without a table gives the English text, or the key when English has none. |
| Translator.AddTranslations | web/static/js/translator.js:330-341 | The language's table is created if absent and takes every given entry. Its other keys, every other language and the current language are unchanged. A new language is listed last. |
| Translator.AddedTextWins | web/static/js/translator.js:317-341 | A non-empty text just added is what a lookup in that language returns, and what the page shows when that language is current. |
| Translator.AddedLanguageListedLast | web/static/js/translator.js:330-346 | Adding a new language appends it to the available languages. |
| WebUtils.UnitFrom | web/static/js/utils.js:152-157 | The chosen unit is the first one, in order, of which at least one whole period has elapsed. When there is none, the result is past the last unit. |
| WebUtils.AtLeastOnePeriod | web/static/js/utils.js:153-154 | At least one whole period has elapsed exactly when the elapsed seconds reach the period. |
| WebUtils.UnitFromBounds | web/static/js/utils.js:143-157 | The chosen unit's length has elapsed, and no coarser unit's has. |
| WebUtils.TimeAgo | web/static/js/utils.js:138-160 | An unreadable date, a future one or one less than a minute ago gives `hace un momento`. Otherwise the phrase counts whole periods of the coarsest unit that has elapsed. |
| WebUtils.UnitMonotone | web/static/js/utils.js:143-157 | A longer elapsed time never gets a finer unit. |
| WebUtils.CountBounds | web/static/js/utils.js:152-157 | The count shown is at least 1 and covers less than one period of the next coarser unit. |
| WebUtils.TwoMonthsAsWritten | web/static/js/utils.js:155 | Two months ago renders as `hace 2 mess`. |
| WebUtils.PluralRuleAgrees | web/static/js/utils.js:143-150 | Adding `s` after a vowel and `es` after a consonant gives the Spanish plural of every unit name. |
| WebUtils.TimeAgoIntended | web/static/js/utils.js:138-160 | It picks the same unit and count as `timeAgo` and the same "a moment ago" cases. The unit is in its Spanish plural when the count exceeds one. |
| WebUtils.TwoMonthsIntended | web/static/js/utils.js:155 | Two months ago renders as `hace 2 meses` in the intended version. |
| WebUtils.EmailCharsSlice | web/static/js/utils.js:122 | A slice consists of characters other than whitespace and `@` exactly when each of its positions in the whole string does. |
| WebUtils.ScanImpliesRegex | web/static/js/utils.js:121-124 | An address the scan accepts matches the regular expression `^[^\s@]+@[^\s@]+\.[^\s@]+$`. |
| WebUtils.RegexImpliesScan | web/static/js/utils.js:121-124 | An address the regular expression matches is accepted by the scan. |
| WebUtils.ValidateEmailMatchesRegex | web/static/js/utils.js:121-124 | The scan accepts exactly the addresses the regular expression accepts: no whitespace, one `@` after a non-empty part, and a domain with an inner `.`. |
| WebUtils.ValidateEmail | web/static/js/utils.js:121-124 | An address with no `@` is rejected. An accepted address has at least five characters and neither starts nor ends with `@`. |
| WebUtils.BlankIffTrimEmpty | web/static/js/utils.js:110 | A field is blank exactly when trimming empties it. |
| WebUtils.RequiredMessage | web/static/js/utils.js:111 | Every message ends with " es requerido". |
| WebUtils.CountBlank | web/static/js/utils.js:109-116 | The count never exceeds the number of fields, and it is zero exactly when no field is blank. |
| WebUtils.ValidateRequired | web/static/js/utils.js:105-119 | There is one message per blank required field. There is no message exactly when every required field is filled. |
| WebUtils.MessagesNameBlankFields | web/static/js/utils.js:109-116 | Every message names one of the blank fields. |
| WebUtils.FirstBlankReportedFirst | web/static/js/utils.js:109-116 | Messages follow document order: the first blank field is named first. |
| WebUtils.RemoveFirstStar | web/static/js/utils.js:176 | A pattern without `*` is unchanged. Otherwise exactly one character is removed. |
| WebUtils.WildcardAcceptsEverything | web/static/js/utils.js:174-178 | An allowed entry `*` accepts every file. |
| WebUtils.StarSuffixAccepts | web/static/js/utils.js:174-178 | An entry `*.ext` accepts a name ending in `.ext` in any mix of ASCII case, whatever the MIME type. |
| WebUtils.ValidateFileType | web/static/js/utils.js:174-178 | A listed MIME type is accepted whatever the name. An empty list accepts nothing. Otherwise acceptance needs an entry, without its `*`, no longer than the file name. |
| WebUtils.LowerAsciiAppend | web/static/js/utils.js:176 | Lower-casing works character by character, so it distributes over concatenation. |
| WebUtils.UpperCaseEntryNeverMatchesName | web/static/js/utils.js:176 | An entry holding an upper-case ASCII letter never matches a file name, because only the name is lower-cased. |
| Dashboard.Init | web/static/js/dashboard.js:15-31 | A missing stored user or an empty one sends the visitor to `/login`. Otherwise the page starts for the stored, non-empty user. |
| Dashboard.LoginOpensDashboard | web/static/js/dashboard.js:15-31 | A login whose answer names a non-empty user opens the dashboard for that user. After a logout the dashboard sends the visitor to `/login`. |
| Dashboard.Concat | web/static/js/dashboard.js:104-109 | The concatenation is at least as long as each array among the values. |
| Dashboard.InConcat | web/static/js/dashboard.js:104-109 | A research is listed exactly when one of the arrays among the values holds it. |
| Dashboard.Flatten | web/static/js/dashboard.js:99-114 | An array is listed as it is. A falsy or scalar payload lists nothing, and so does a dictionary with no array among its values. |
| Dashboard.NoArraysConcat | web/static/js/dashboard.js:104-109 | When no value of the dictionary is an array, nothing is listed. |
| Dashboard.FromServer | modules/routes/app_research.py:98-114 | A missing grouping arrives as a falsy value. A grouping arrives as a dictionary with one array per owner, in order. |
| Dashboard.NonAdminListsOwnResearches | web/static/js/dashboard.js:89-114 | A user who is not an admin sees exactly their own researches, in table order. |
| Dashboard.AdminListsEveryResearch | web/static/js/dashboard.js:89-114 | An admin sees every research and nothing else. |
| Dashboard.ViewListed | modules/models/research_managment/Research.py:108-125 | Every row's view sits in some owner group. |
| Dashboard.ListedIsView | modules/models/research_managment/Research.py:108-125 | Everything in an owner group is the view of some row of the table. |
| Dashboard.CriteriaShown | web/static/js/dashboard.js:193-201 | An array is listed as it is. A non-empty text is listed as pieces that join back to it on the criteria separator. Missing or empty criteria list nothing. |
| Dashboard.CriteriaShownAsWritten | web/static/js/dashboard.js:193-201 | Calling `.split` raises exactly when the criteria are an array, with the not-a-function error. Otherwise the criteria are listed as intended. |
| Dashboard.ShowResearchDetail | web/static/js/dashboard.js:167-201 | The detail page opens with that research selected, and the criteria are listed as the code as written lists them. |
| Dashboard.ShowResearchDetailIntended | web/static/js/dashboard.js:167-201 | The detail page opens with that research selected, and it lists the criteria list the server sent. |
| Dashboard.DetailRaisesForEveryServerResearch | web/static/js/dashboard.js:194-195 | Every research the server sends makes the detail view raise, whatever its stored criteria. The server always sends the criteria as an array. |
| Dashboard.DetailListsStoredCriteria | web/static/js/dashboard.js:193-201 | Criteria stored joined by the separator are listed back exactly by the intended view. |
| Dashboard.ViewCriteria | modules/models/research_managment/Research.py:122 | The criteria a research's view carries are its stored text, split on the separator. |
| Dashboard.ShowResearchList | web/static/js/dashboard.js:258-263 | The list page shows with no research selected. |
| Dashboard.BackToListForgetsDetail | web/static/js/dashboard.js:258-263 | Going back to the list after opening a detail gives the same screen as going back directly. |
| Dashboard.ToggleEndpoint | web/static/js/dashboard.js:271 | A truthy current status posts to `/research/inactivate`, and a falsy one to `/research/activate`. |
| Dashboard.ToggleFlipsStatus | web/static/js/dashboard.js:265-277 | A successful toggle stores the opposite of the status the button showed. |
| Auth.Init | web/static/js/auth.js:10-18 | The visitor is sent to the dashboard exactly when some user is stored, even an empty name, and the page is not already `/dashboard`. |
| Auth.RedirectLoopOnEmptyUser | web/static/js/auth.js:12-15 | With an empty stored user, the login page sends the visitor to the dashboard, and the dashboard sends them back to `/login`. |
| Auth.InitIntended | web/static/js/auth.js:10-18 | The visitor is sent to the dashboard exactly when the dashboard would start for them and the page is not `/dashboard`. |
| Auth.InitIntendedNeverBounces | web/static/js/auth.js:12-15 | The corrected test never sends a visitor to a dashboard that sends them back, and never keeps back a visitor the dashboard accepts. It differs from the code as written only for an empty name. |
| Auth.HandleLogin | web/static/js/auth.js:85-117 | A login is rejected exactly when some required field is blank, with the translated login error and the required-field message. |
| Auth.HandleRegister | web/static/js/auth.js:119-163 | A registration is sent exactly when no required field is blank, the e-mail is valid and the password has at least 4 characters. The first failing check names the error. |
| Auth.RegisterStricterThanLogin | web/static/js/auth.js:85-163 | Whatever the register form lets through, the login form lets through too. |
| Auth.RejectionsAreNonEmpty | web/static/js/auth.js:93-143 | Every rejection message is non-empty, in any language. |
| Auth.LoginFlowOpensDashboard | web/static/js/auth.js:85-117 | A login the form lets through and the server accepts opens the dashboard for the user the server named. |
| Auth.SubmittedRegistrationHasNoWarnings | web/static/js/auth.js:37-65 | An empty field is never flagged. A registration the form lets through shows no warning on either field. |
| Auth.EmailFlagged | web/static/js/auth.js:41-50 | An empty field is never flagged. A non-empty value with no `@`, or shorter than five characters, is flagged. |
| Auth.PasswordFlagged | web/static/js/auth.js:54-63 | Flagged exactly when the password has one to three characters. |
| Auth.WarningsMatchSubmitChecks | web/static/js/auth.js:37-143 | For non-empty values, the on-blur warnings flag exactly the fields the submit handler would reject. |

## Left out

- Database sessions: commit and rollback are modelled as one check of the primary-key, unique and not-null constraints when a handler commits. The session's `autoflush=False` matters where a handler queries after adding rows. The batch inference loop models it; for the article id generator see the next line. Foreign keys, `onupdate=` column hooks and state left pending in the shared session between requests are not modelled.
- ORM relationships: the `relationship(...)` attributes and their `back_populates` names are not modelled; the model assumes the mappers configure. As written, three of them name an attribute the other class lacks: `Articles.articleOwner` names `Research.articles` (modules/models/research_managment/Articles.py:25), `TrainedModel.ResearchOwner` names `Research.trained_models` (modules/models/ai_models/Train.py:25), and `MlClassifier.ArticleOwner` names `Articles.ml_classifiers` (modules/models/ai_models/MlClassifier.py:18). `Datasets.articles` names `Articles.articleOwner` (modules/models/research_managment/Datasets.py:26), which points at `Research`, and no foreign key links articles to datasets. Read as written, SQLAlchemy would reject these when it first configures the mappers, on the first query, so every database handler relies on this assumption. No handler reads or writes through these attributes; rows are reached by their key columns, which is what the model states.
- LabelerRoutes.TokenCount: a non-zero float or a timestamp has no count, although Python would add a float. `tokens_total` is an Integer column (modules/models/ai_models/AiLabeled.py:16), so only integers and NULL reach the sum.
- LoaderRoutes.AddArticles: the id generator's query also reads committed rows only. Freshness against the articles added earlier in the same upload is assumed of the generator, as `uuid4` gives it, rather than derived.
- Loader.Scan: the step that opens a field is stated by `OpenField` and the scan's own definition. No separate lemma follows a whole record from its tag line to its stored value.
- Integrity errors: a failed commit is answered with one fixed `IntegrityError` text, because the driver's message is not visible in the source.
- Unexpected Python errors (an attribute read on `None`, a call to a method that does not exist) are modelled as the 500 reply FastAPI gives, with the fixed text `Internal Server Error`.
- Request validation: FastAPI's 422 answer for a missing form field is not modelled. Every handler receives all of its fields.
- Values: integers are unbounded, and every float is left out. This covers probabilities, confidences, accuracy and the other metrics of training, `formatFileSize` and the translator's confidence. A cell read from a frame is a text or missing; other pandas cell types are not modelled.
- `YearOf` uses ASCII `isdigit`; Unicode digits that Python also accepts are not modelled.
- Nondeterminism is passed in as parameters: the clock, the identifier generators, the password hash (SHA-256), the LLM's answers, the trained classifier's predictions, the vector store and its searches, and the translator's results.
- Machine-learning and retrieval code is not part of this model: `lg_model.py`, `vectorizer.py`, `embedding.py`, `chat_llm.py`, `retrievers.py`, `vectorestore_pg.py` and `Traductor.py`. The handlers see only their results, as parameters.
- File handling: saving and deleting the temporary upload, and the pandas CSV and Excel readers. The frame a reader returns is a parameter of `Loader.LoadData`. Model pickling and the CSV download's rendering are also left out.
- `Articles.get_all_by_dataset` does not exist in the source. Creating a retriever is therefore modelled only as the failure it produces once datasets exist.
- `MlClassifier.get_by_research` reads attributes that do not exist and is not modelled.
- `modules/routes/app_reseharch.py` repeats the `create` handler of `app_research.py`, which is modelled once.
- `app.py` mounts only the `/user` router. The other routers are modelled with the prefixes the browser client calls.
- The asynchronous LLM classification has the same result logic as the synchronous one, and is modelled once as `LlmClassify.Classify`.
- Browser: fetch, the DOM and rendering are left out. So are `escapeHtml`, `translatePage`, the language selector, notifications, timers, `setButtonLoading`, `getFormData`, `switchView`, `editResearch`, `createNewResearch` and the page reload after a status toggle.
- `translations` and `defaultTranslations` are the same object after loading. Adding translations also changes the defaults, which no modelled operation reads.
- JavaScript values: numbers are integers, object keys keep insertion order, and prototype properties are not modelled. `toLowerCase` is modelled on ASCII letters only, and the length of a string counts characters, not UTF-16 code units.
- ApiClient.Property: reads only scalar JSON values; a nested object or array reads as `undefined`, which is all the client ever reads through it.
- ApiClient.QueryPairs: the form-urlencoded serialiser is a parameter. The query round trip assumes only that it never emits `&` or `=` and that a matching decoder exists.
- WebUtils.TimeAgo: `new Date(dateString)` is a parameter, as milliseconds since the epoch or none for an invalid date. Date-string parsing, `toLocaleDateString` and `toLocaleString` are not modelled.
- Query order: a `.first()` or `.all()` without `ORDER BY` is modelled as returning rows in insertion order. `ORDER BY` ties, as in `TrainModel.LatestIndex`, are also broken by insertion order. SQL leaves this order open. For `MlClassifier` the key is the pair of article and model (modules/models/ai_models/MlClassifier.py:10-11), and SQLite may answer from that key's index, giving the lowest model id first. Under that order the statements of `MlClassifierModel.Update`, `MlClassifierModel.Delete` and `MlClassifierModel.ArticleOnlyLookupSeesFirstModel` hold with "first" read as "the first in the database's order". No handler calls these three article-only methods.
- LabelerRoutes.ReprocessItems: the whole loop reads one clock value `now`, while the source calls `datetime.now()` once per item. Every reprocessed label therefore gets the same `update_at`.
- Row shape: lemmas that require `Store.WellFormed` assume that every row has exactly its table's columns, as rows built by the ORM classes do.

## Findings

| source | as written | input that shows it | evidently intended | confidence | as-written member | corrected member |
|---|---|---|---|---|---|---|
| modules/models/ai_models/Train.py:30 | `classmethod` stands alone on the line before `def add`, so `add` is a plain function. The handler's `TrainedModel.add(dict_new=train_record)` binds nothing to `cls` and raises a `TypeError` for the missing argument. | Any training request that passes the checks and whose fit succeeds: the handler answers 500 and stores no model. | `@classmethod` on `add`. On its own this is not enough, because `add` then raises in `generate_version` (next row); with both corrections the model is stored with the next version for its research. | not executed | TrainModel.AddAsCalled, MlRoutes.Train, MlRoutes.TrainAsWrittenNeverStores | TrainModel.AddIntended, MlRoutes.TrainIntended |
| modules/models/ai_models/Train.py:78 | `generate_version` calls `db.func.max`, but `db` is the `DatabaseManager` of models/__init__.py lines 16-23, which has no `func`. The `AttributeError` is re-raised as the generic version error. | Any research id: `generate_version` raises "Error generating version for TrainedModel", so `add` raises "Error adding Research" even with `@classmethod` restored. | `sqlalchemy.func.max`: the largest version of the research plus one, or 1 when it has none. | not executed | TrainModel.GenerateVersion, TrainModel.Add, TrainModel.VersionedAddOnlyWhenCorrected | TrainModel.NextVersion, TrainModel.AddIntended |
| modules/routes/app_ml.py:217-225 | The 404 for a research with no trained model is raised inside the `try`, and the generic `except` turns it into 500. | `GET /latest_trained_model/r` for a research `r` with no trained model: 500 `Error interno del servidor.` | 404 `Modelo entrenado no encontrado.`, as in the sibling handler at lines 200-210. | not executed | MlRoutes.GetLatestTrainedModel, MlRoutes.LatestMissingIsServerError | MlRoutes.GetLatestTrainedModelIntended, MlRoutes.LatestHasHighestVersion |
| web/static/js/utils.js:155 | The plural appends `s` to every unit name. | A date two months ago renders as `hace 2 mess`. | Spanish plurals: `meses`, and `años`, `semanas`, `días`, `horas`, `minutos`. | not executed | WebUtils.TimeAgo, WebUtils.TwoMonthsAsWritten | WebUtils.TimeAgoIntended, WebUtils.TwoMonthsIntended, WebUtils.PluralRuleAgrees |
| web/static/js/dashboard.js:194-195 | The detail view calls `.split` on `criteria_inclusion`, but the server already sends it as a list (Research.py lines 93 and 122). | Opening the detail of any research from the list raises `split is not a function`. Even a research without criteria does this, because it arrives as an empty list, which is truthy. | Each criterion of the list shown as one item. | not executed | Dashboard.ShowResearchDetail, Dashboard.DetailRaisesForEveryServerResearch | Dashboard.ShowResearchDetailIntended, Dashboard.DetailListsStoredCriteria |
| web/static/js/auth.js:12 | The login page tests the stored user with `!== null`, while the dashboard tests it for truthiness (dashboard.js line 18). | A `currentUser` stored as the empty string: the login page sends the visitor to `/dashboard`, which sends them back to `/login`, and so on. | The same test as the dashboard, so that an empty name stays on the login page. | not executed; low, since only storage written from outside the client holds an empty name | Auth.Init, Auth.RedirectLoopOnEmptyUser | Auth.InitIntended, Auth.InitIntendedNeverBounces |
